/** `build_tree`: from frequencies to code lengths and codes. */
module BuildTree {
  import opened Bits
  import opened Sums
  import opened Huffman
  import opened Heap
  import opened Heights
  import opened TreeMerge
  import opened BitLengths
  import opened GenBitlen
  import opened CutCosts
  import opened PrefixCodes
  import opened Rfc1951
  import Codes = GenCodes

  // ----- Collecting the used symbols -----

  ghost function Used(f: seq<nat>, n: nat): set<nat>
    requires n <= |f|
  {
    set i: nat | 0 <= i < n && f[i] != 0
  }

  ghost predicate Listed(h: seq<nat>, len: nat, s: set<nat>) {
    len < |h| && multiset(h[1..len + 1]) == multiset(s)
  }

  /** `m` is the largest member, or -1 if there is none. */
  ghost predicate MaxOf(m: int, s: set<nat>) {
    if s == {} then m == -1 else m >= 0 && m in s && forall x :: x in s ==> x <= m
  }

  ghost predicate Collected(h: seq<nat>, len: nat, maxCode: int, f: seq<nat>, dl: seq<nat>, n: nat) {
    && n <= |f| && n <= |dl| && len <= n
    && Listed(h, len, Used(f, n)) && MaxOf(maxCode, Used(f, n))
    && forall i :: 0 <= i < n && f[i] == 0 ==> dl[i] == 0
  }

  lemma ListOneMore(h: seq<nat>, len: nat, s: set<nat>, x: nat)
    requires Listed(h, len, s) && len + 1 < |h| && x !in s
    ensures Listed(h[len + 1 := x], len + 1, s + {x})
  {
    assert h[len + 1 := x][1..len + 2] == h[1..len + 1] + [x];
    assert multiset(s + {x}) == multiset(s) + multiset{x};
  }

  lemma CollectStep(h: seq<nat>, len: nat, maxCode: int, f: seq<nat>, dl: seq<nat>, n: nat)
    requires Collected(h, len, maxCode, f, dl, n) && n < |f| && n < |dl| && len + 1 < |h|
    ensures f[n] != 0 ==> Collected(h[len + 1 := n], len + 1, n, f, dl, n + 1)
    ensures f[n] == 0 ==> Collected(h, len, maxCode, f, dl[n := 0], n + 1)
  {
    if f[n] != 0 {
      assert Used(f, n + 1) == Used(f, n) + {n};
      ListOneMore(h, len, Used(f, n), n);
    } else {
      assert Used(f, n + 1) == Used(f, n);
    }
  }

  method CollectSymbols(heap: array<nat>, fc: array<nat>, dl: array<nat>, depth: array<nat>, elems: nat) returns (heapLen: nat, maxCode: int)
    requires heap != fc && heap != dl && heap != depth && fc != dl && fc != depth && dl != depth
    requires elems <= fc.Length == dl.Length <= depth.Length && elems + 1 < heap.Length
    modifies heap, dl, depth
    ensures Collected(heap[..], heapLen, maxCode, fc[..], dl[..], elems) && ZeroOn(depth[..], Used(fc[..], elems))
  {
    hide Collected;
    ghost var f: seq<nat> := fc[..];
    heapLen, maxCode := 0, -1;
    CollectStart(heap[..], f, dl[..]);
    for n := 0 to elems
      invariant fc[..] == f && heapLen <= n
      invariant Collected(heap[..], heapLen, maxCode, f, dl[..], n) && ZeroOn(depth[..], Used(f, n))
    {
      ghost var h: seq<nat>, d: seq<nat> := heap[..], dl[..];
      CollectStep(h, heapLen, maxCode, f, d, n);
      if fc[n] != 0 {
        heapLen := heapLen + 1;
        maxCode := n;
        heap[heapLen] := n;
        depth[n] := 0;
        assert heap[..] == h[heapLen := n] && dl[..] == d;
      } else {
        dl[n] := 0;
        assert dl[..] == d[n := 0] && heap[..] == h;
      }
    }
  }

  /** The leaves have height zero. */
  ghost predicate ZeroOn(d: seq<nat>, s: set<nat>) {
    forall x :: x in s ==> x < |d| && d[x] == 0
  }

  lemma CollectStart(h: seq<nat>, f: seq<nat>, dl: seq<nat>)
    requires |h| > 0
    ensures Collected(h, 0, -1, f, dl, 0)
  {
    assert Used(f, 0) == {};
    assert h[1..1] == [];
  }

  // ----- Forcing at least two codes -----

  /** Lengths of the static tree as terms of a sum. */
  ghost function StaticTerms(desc: TreeDesc, n: nat): (r: seq<int>)
    ensures |r| == n
  {
    seq(n, i requires 0 <= i < n => desc.StaticLen(i))
  }

  /** Frequencies f are f0 with the symbols of `forced`, unused before, set to one. */
  ghost predicate Forced(f0: seq<nat>, f: seq<nat>, elems: nat, forced: set<nat>) {
    && |f| == |f0| && elems <= |f| && elems >= 3
    && (forall x :: x in forced ==> x < 3 && f0[x] == 0 && f[x] == 1)
    && (forall x :: 0 <= x < |f| && x !in forced ==> f[x] == f0[x])
  }

  lemma ForcedUsed(f0: seq<nat>, f: seq<nat>, elems: nat, forced: set<nat>)
    requires Forced(f0, f, elems, forced)
    ensures Used(f, elems) == Used(f0, elems) + forced && Used(f0, elems) !! forced
  {
  }

  ghost predicate Forcing(h: seq<nat>, len: nat, maxCode: int, f0: seq<nat>, f: seq<nat>, desc: TreeDesc, forced: set<nat>,
                          o: int, st: int, opt: nat, stat: nat) {
    && desc.Valid() && desc.elems + 1 < |h| && Forced(f0, f, desc.elems, forced)
    && Listed(h, len, Used(f, desc.elems)) && MaxOf(maxCode, Used(f, desc.elems)) && |Used(f, desc.elems)| == len
    && (forced != {} ==> len <= 2) && len <= desc.elems
    && opt == Wrap32(o - |forced|)
    && stat == Wrap32(st - Sum(forced, StaticTerms(desc, desc.elems)))
  }

  /** The symbol to force is unused and small. */
  lemma ForceChoice(s: set<nat>, maxCode: int)
    requires MaxOf(maxCode, s) && |s| < 2
    ensures var n := if maxCode < 2 then maxCode + 1 else 0;
            0 <= n < 3 && n !in s && MaxOf(if maxCode < 2 then maxCode + 1 else maxCode, s + {n})
  {
    if maxCode >= 2 {
      assert s - {maxCode as nat} == {} by {
        assert |s - {maxCode as nat}| == |s| - 1;
      }
    }
  }

  lemma ForceStep(h: seq<nat>, len: nat, maxCode: int, f0: seq<nat>, f: seq<nat>, desc: TreeDesc, forced: set<nat>,
                  o: int, st: int, opt: nat, stat: nat)
    requires desc.elems <= |f| && Forcing(h, len, maxCode, f0, f, desc, forced, o, st, opt, stat) && len < 2
    ensures var n: int := if maxCode < 2 then maxCode + 1 else 0;
            && 0 <= n < 3 && n < |f|
            && Forcing(h[len + 1 := n], len + 1, if maxCode < 2 then maxCode + 1 else maxCode, f0, f[n := 1], desc, forced + {n},
                       o, st, Wrap32(opt - 1), if desc.staticLens == [] then stat else Wrap32(stat - desc.StaticLen(n)))
  {
    hide Sum, Wrap32, StaticTerms, Used, Forced, MaxOf, Listed, TreeDesc.Extra, TreeDesc.StaticLen;
    var s := Used(f, desc.elems);
    ForceChoice(s, maxCode);
    var n := if maxCode < 2 then maxCode + 1 else 0;
    ForceOne(f0, f, desc.elems, forced, n);
    ListOneMore(h, len, s, n);
    WrapAdd(o - |forced|, -1);
    StaticForced(desc, forced, n, st, stat);
  }

  lemma ForceOne(f0: seq<nat>, f: seq<nat>, elems: nat, forced: set<nat>, n: nat)
    requires Forced(f0, f, elems, forced) && n < 3 && n !in Used(f, elems)
    ensures n < |f| && n !in forced && Forced(f0, f[n := 1], elems, forced + {n})
    ensures Used(f[n := 1], elems) == Used(f, elems) + {n}
  {
  }

  lemma StaticForced(desc: TreeDesc, forced: set<nat>, n: nat, st: int, stat: nat)
    requires n !in forced && n < desc.elems
    requires stat == Wrap32(st - Sum(forced, StaticTerms(desc, desc.elems)))
    ensures (if desc.staticLens == [] then stat else Wrap32(stat - desc.StaticLen(n)))
         == Wrap32(st - Sum(forced + {n}, StaticTerms(desc, desc.elems)))
  {
    hide Sum, Wrap32;
    SumInsert(forced, n, StaticTerms(desc, desc.elems));
    WrapAdd(st - Sum(forced, StaticTerms(desc, desc.elems)), 0 - desc.StaticLen(n));
  }

  method ForceTwo(heap: array<nat>, heapLen0: nat, maxCode0: int, fc: array<nat>, depth: array<nat>, desc: TreeDesc,
                  optLen0: nat, staticLen0: nat, ghost o: int, ghost st: int)
    returns (heapLen: nat, maxCode: int, optLen: nat, staticLen: nat, ghost forced: set<nat>)
    requires heap != fc && heap != depth && fc != depth && fc.Length <= depth.Length
    requires Forcing(heap[..], heapLen0, maxCode0, fc[..], fc[..], desc, {}, o, st, optLen0, staticLen0)
    requires desc.elems <= fc.Length && ZeroOn(depth[..], Used(fc[..], desc.elems))
    modifies heap, fc, depth
    ensures heapLen >= 2 && ZeroOn(depth[..], Used(fc[..], desc.elems))
    ensures Forcing(heap[..], heapLen, maxCode, old(fc[..]), fc[..], desc, forced, o, st, optLen, staticLen)
  {
    hide Forcing, Wrap32, TreeDesc.StaticLen;
    ghost var f0: seq<nat> := fc[..];
    heapLen, maxCode, optLen, staticLen, forced := heapLen0, maxCode0, optLen0, staticLen0, {};
    while heapLen < 2
      invariant Forcing(heap[..], heapLen, maxCode, f0, fc[..], desc, forced, o, st, optLen, staticLen)
      invariant ZeroOn(depth[..], Used(fc[..], desc.elems))
    {
      ghost var h: seq<nat>, f: seq<nat> := heap[..], fc[..];
      ForcingSizes(h, heapLen, maxCode, f0, f, desc, forced, o, st, optLen, staticLen);
      ForceStep(h, heapLen, maxCode, f0, f, desc, forced, o, st, optLen, staticLen);
      var n: int := 0;
      if maxCode < 2 {
        maxCode := maxCode + 1;
        n := maxCode;
      }
      heapLen := heapLen + 1;
      heap[heapLen] := n;
      fc[n] := 1;
      depth[n] := 0;
      optLen := Wrap32(optLen - 1);
      if desc.staticLens != [] {
        staticLen := Wrap32(staticLen - desc.StaticLen(n));
      }
      forced := forced + {n};
      assert heap[..] == h[heapLen := n] && fc[..] == f[n := 1];
    }
  }

  lemma ForcingSizes(h: seq<nat>, len: nat, maxCode: int, f0: seq<nat>, f: seq<nat>, desc: TreeDesc, forced: set<nat>,
                     o: int, st: int, opt: nat, stat: nat)
    requires Forcing(h, len, maxCode, f0, f, desc, forced, o, st, opt, stat)
    ensures 3 < |h| && desc.elems <= |f|
  {
  }

  // ----- Heap and merging -----

  method Heapify(heap: array<nat>, heapLen: nat, fc: array<nat>, depth: array<nat>, ghost live: set<nat>)
    requires heap != fc && heap != depth && fc.Length <= depth.Length
    requires Listed(heap[..], heapLen, live) && forall x :: x in live ==> x < fc.Length
    modifies heap
    ensures Queue(heap[..], heapLen, live, fc[..], depth[..])
  {
    hide HeapFrom, SameOutside;
    ghost var f: seq<nat>, d: seq<nat> := fc[..], depth[..];
    EntriesAreNodes(heap[..], heapLen, live, f, d);
    LeavesAreHeaps(heap[..], heapLen, f, d);
    var n := heapLen / 2;
    while n >= 1
      invariant 0 <= n <= heapLen / 2 && fc[..] == f && depth[..] == d
      invariant Listed(heap[..], heapLen, live)
      invariant HeapFrom(heap[..], heapLen, f, d, n + 1)
    {
      EntriesAreNodes(heap[..], heapLen, live, f, d);
      PqDownHeap(heap, heapLen, fc, depth, n);
      n := n - 1;
    }
    EntriesAreNodes(heap[..], heapLen, live, f, d);
  }

  lemma LeavesAreHeaps(h: seq<nat>, len: nat, f: seq<nat>, d: seq<nat>)
    requires len < |h|
    ensures HeapFrom(h, len, f, d, len / 2 + 1)
  {
  }

  lemma MergingStart(h: seq<nat>, len: nat, leaves: set<nat>, elems: nat, f: seq<nat>, dl: seq<nat>, d: seq<nat>, total: nat)
    requires |f| == |dl| && elems + |leaves| <= |f| && |h| == HEAP_SIZE && 2 * |leaves| < HEAP_SIZE && |leaves| > 0
    requires len == |leaves| && Queue(h, len, leaves, f, d) && total < TWO16 && Sum(leaves, f) == total
    requires (forall x :: x in leaves ==> x < elems) && ZeroOn(d, leaves) && Weighty(leaves, f)
    ensures Merging(h, len, leaves, elems, [], f, dl, d, total)
  {
    hide Queue, Sum;
    QueueSizes(h, len, leaves, f, d);
    assert Live(leaves, elems, [], 0) == leaves;
  }

  /** What the finished merging says about the tree. */
  lemma MergingDone(h: seq<nat>, leaves: set<nat>, desc: TreeDesc, merges: seq<(nat, nat)>, f: seq<nat>, dl: seq<nat>, d: seq<nat>, total: nat, maxCode: nat)
    requires Merging(h, 1, leaves, desc.elems, merges, f, dl, d, total) && |leaves| >= 2 && desc.Valid()
    requires maxCode < desc.elems && (forall x :: x in leaves ==> x <= maxCode) && |leaves| < Pow2(desc.maxLength)
    ensures var lo := HEAP_SIZE - 2 * |merges| - 1;
            lo > 1 && |h| == HEAP_SIZE && TreeReady(h[lo := h[1]], lo, dl, leaves, merges, desc, maxCode)
  {
    hide Sum, WeightsAdd, Greedy, FathersUp, TreeDesc.Extra, Balanced, Weighty;
    var elems, lo := desc.elems, HEAP_SIZE - 2 * |merges| - 1;
    RootAlone(leaves, elems, merges);
    TopIsLeast(h, 1, Live(leaves, elems, merges, |merges|), f, d);
    assert TailOrder(h[lo := h[1]], merges);
  }

  method MergeAll(heap: array<nat>, heapLen0: nat, fc: array<nat>, dl: array<nat>, depth: array<nat>, desc: TreeDesc,
                  ghost leaves: set<nat>, ghost total: nat, ghost maxCode: nat)
    returns (heapMax: nat, ghost merges: seq<(nat, nat)>)
    requires heap != fc && heap != dl && heap != depth && fc != dl && fc != depth && dl != depth
    requires heapLen0 >= 2 && desc.Valid()
    requires Merging(heap[..], heapLen0, leaves, desc.elems, [], fc[..], dl[..], depth[..], total)
    requires maxCode < desc.elems && (forall x :: x in leaves ==> x <= maxCode) && |leaves| < Pow2(desc.maxLength)
    modifies heap, fc, dl, depth
    ensures TreeReady(heap[..], heapMax, dl[..], leaves, merges, desc, maxCode)
    ensures merges != [] && Merged(leaves, desc.elems, merges, fc[..], dl[..], total)
    ensures Balanced(leaves, fc[..], depth[..], desc.elems, merges)
    ensures forall x :: 0 <= x < desc.elems && x < fc.Length ==> fc[x] == old(fc[x])
    ensures forall x :: 0 <= x < desc.elems && x < dl.Length && x !in leaves ==> dl[x] == old(dl[x])
  {
    hide Merging, TreeReady, TreeDesc.Valid, Merged, Balanced;
    var heapLen, node := heapLen0, desc.elems;
    heapMax, merges := HEAP_SIZE, [];
    MergingSizes(heap[..], heapLen0, leaves, desc.elems, merges, fc[..], dl[..], depth[..], total);
    while heapLen >= 2
      invariant 1 <= heapLen == |leaves| - |merges| && node == desc.elems + |merges| && heapMax == HEAP_SIZE - 2 * |merges|
      invariant Merging(heap[..], heapLen, leaves, desc.elems, merges, fc[..], dl[..], depth[..], total)
      invariant forall x :: 0 <= x < desc.elems && x < fc.Length ==> fc[x] == old(fc[x])
      invariant forall x :: 0 <= x < desc.elems && x < dl.Length && x !in leaves ==> dl[x] == old(dl[x])
      decreases heapLen
    {
      merges := MergeOnce(heap, heapLen, fc, dl, depth, desc.elems, node, heapMax, leaves, merges, total);
      MergingSizes(heap[..], heapLen - 1, leaves, desc.elems, merges, fc[..], dl[..], depth[..], total);
      heapLen, node, heapMax := heapLen - 1, node + 1, heapMax - 2;
    }
    ghost var h: seq<nat> := heap[..];
    MergingSizes(h, 1, leaves, desc.elems, merges, fc[..], dl[..], depth[..], total);
    MergingDone(h, leaves, desc, merges, fc[..], dl[..], depth[..], total, maxCode);
    heapMax := heapMax - 1;
    heap[heapMax] := heap[1];
    assert heap[..] == h[heapMax := h[1]];
  }

  lemma MergingSizes(h: seq<nat>, len: nat, leaves: set<nat>, elems: nat, merges: seq<(nat, nat)>,
                     f: seq<nat>, dl: seq<nat>, d: seq<nat>, total: nat)
    requires Merging(h, len, leaves, elems, merges, f, dl, d, total)
    ensures len == |leaves| - |merges| && |h| == HEAP_SIZE && 2 * |merges| + 2 < HEAP_SIZE
    ensures Merged(leaves, elems, merges, f, dl, total) && Balanced(leaves, f, d, elems, merges)
  {
  }

  // ----- From sums over leaves to the lengths of the format -----

  /** Lengths dl of the symbols 0..n-1: leaves have one, the others none. */
  ghost predicate LensOn(dl: seq<nat>, n: nat, leaves: set<nat>, max: nat) {
    && n <= |dl|
    && (forall x :: x in leaves ==> x < n)
    && (forall x :: 0 <= x < n ==> if x in leaves then 1 <= dl[x] <= max else dl[x] == 0)
  }

  lemma {:induction false} CountLenIsSum(dl: seq<nat>, n: nat, leaves: set<nat>, l: nat)
    requires n <= |dl| && l >= 1 && forall x :: 0 <= x < n && x !in leaves ==> dl[x] == 0
    ensures CountLen(dl[..n], l) == Sum(leaves, Ind(dl[..n], l))
  {
    if n > 0 {
      CountLenIsSum(dl, n - 1, leaves, l);
      assert dl[..n][..n - 1] == dl[..n - 1];
      assert Ind(dl[..n], l)[..n - 1] == Ind(dl[..n - 1], l);
    }
  }

  lemma {:induction false} KraftIsSum(dl: seq<nat>, n: nat, leaves: set<nat>, max: nat)
    requires n <= |dl| && forall x :: 0 <= x < n ==> if x in leaves then 1 <= dl[x] <= max else dl[x] == 0
    ensures LensWithin(dl[..n], max) && Kraft(dl[..n], max) == Sum(leaves, Shares(dl[..n], max))
  {
    if n > 0 {
      KraftIsSum(dl, n - 1, leaves, max);
      assert dl[..n][..n - 1] == dl[..n - 1];
      assert Shares(dl[..n], max)[..n - 1] == Shares(dl[..n - 1], max);
    }
  }

  /** Terms beyond all members do not count. */
  lemma {:induction false} SumPrefix(s: set<nat>, g: seq<int>, n: nat)
    requires n <= |g| && forall x :: x in s ==> x < n
    ensures Sum(s, g) == Sum(s, g[..n])
    decreases |g|
  {
    if n < |g| {
      SumPrefix(s, g[..|g| - 1], n);
      assert g[..|g| - 1][..n] == g[..n];
    } else {
      assert g[..n] == g;
    }
  }

  lemma {:induction false} KraftRescale(lens: seq<nat>, d: nat, m: nat)
    requires LensWithin(lens, d) && d <= m
    ensures LensWithin(lens, m) && Kraft(lens, m) == Pow2(m - d) * Kraft(lens, d)
  {
    if lens != [] {
      var init, l := lens[..|lens| - 1], lens[|lens| - 1];
      KraftRescale(init, d, m);
      if l > 0 { Pow2Add(m - d, d - l); }
      Distribute(Pow2(m - d), Kraft(init, d), Share(l, d));
    }
  }

  /** The lengths that `gen_bitlen` leaves make a complete code with matching counts. */
  lemma LensAreComplete(dl: seq<nat>, n: nat, bl: seq<nat>, leaves: set<nat>, max: nat)
    requires LensOn(dl, n, leaves, max) && max <= MAX_BITS
    requires CountsLens(bl, leaves, dl) && Sum(leaves, Shares(dl, max)) == Pow2(max)
    ensures LensWithin(dl[..n], max) && Complete(dl[..n]) && Codes.CountsOf(bl, dl[..n])
  {
    hide Sum, Kraft, CountLen;
    var lens := dl[..n];
    KraftIsSum(dl, n, leaves, max);
    SumPrefix(leaves, Shares(dl, max), n);
    assert Shares(dl, max)[..n] == Shares(lens, max);
    KraftRescale(lens, max, MAX_BITS);
    Pow2Add(MAX_BITS - max, max);
    CountsAgree(dl, n, bl, leaves, max);
  }

  lemma CountsAgree(dl: seq<nat>, n: nat, bl: seq<nat>, leaves: set<nat>, max: nat)
    requires LensOn(dl, n, leaves, max) && CountsLens(bl, leaves, dl)
    ensures Codes.CountsOf(bl, dl[..n])
  {
    hide Sum, CountLen;
    forall l | 1 <= l <= MAX_BITS ensures bl[l] == CountLen(dl[..n], l) {
      CountLenIsSum(dl, n, leaves, l);
      SumPrefix(leaves, Ind(dl, l), n);
      assert Ind(dl, l)[..n] == Ind(dl[..n], l);
    }
    SumNone(leaves, Ind(dl, 0));
  }

  // ----- Costs -----

  /** Sum of frequency times cost over all symbols. */
  function Weighted(f: seq<nat>, c: seq<nat>): nat
    requires |f| == |c|
  {
    if f == [] then 0
    else Weighted(f[..|f| - 1], c[..|c| - 1]) + Bill(f[|f| - 1], c[|c| - 1])
  }

  function Total(f: seq<nat>): nat {
    if f == [] then 0 else Total(f[..|f| - 1]) + f[|f| - 1]
  }

  /** Bits of each symbol of a tree with these code lengths, with its extra bits. */
  function CodeCosts(desc: TreeDesc, lens: seq<nat>): (r: seq<nat>)
    ensures |r| == desc.elems
  {
    seq(desc.elems, n requires 0 <= n < desc.elems => (if n < |lens| then lens[n] else 0) + desc.Extra(n))
  }

  lemma {:induction false} WeightedIsSum(f: seq<nat>, c: seq<nat>, s: set<nat>, g: seq<int>)
    requires |f| == |c| == |g|
    requires forall i :: 0 <= i < |f| ==> if i in s then g[i] == Bill(f[i], c[i]) else f[i] == 0
    ensures Sum(s, g) == Weighted(f, c)
  {
    if f != [] {
      var n := |f| - 1;
      WeightedIsSum(f[..n], c[..n], s, g[..n]);
    }
  }

  lemma {:induction false} TotalIsSum(f: seq<nat>, s: set<nat>)
    requires forall i :: 0 <= i < |f| && i !in s ==> f[i] == 0
    ensures Sum(s, f) == Total(f)
  {
    if f != [] { TotalIsSum(f[..|f| - 1], s); }
  }

  /** Two leaves have length one each. */
  lemma TwoLeaves(leaves: set<nat>, lens: seq<nat>, max: nat)
    requires |leaves| == 2 && LeafLens(leaves, lens, max) && Sum(leaves, Shares(lens, max)) == Pow2(max)
    ensures forall x :: x in leaves ==> lens[x] == 1
  {
    hide Sum;
    var a :| a in leaves;
    assert |leaves - {a}| == 1;
    var b :| b in leaves - {a};
    assert |leaves - {a} - {b}| == 0;
    assert leaves == {a, b};
    var g := Shares(lens, max);
    SumRemove(leaves, a, g);
    assert leaves - {a} == {b};
    SumSingle(b, g);
    assert Pow2(max) == 2 * Pow2(max - 1);
    HalfShare(lens[a], max);
    HalfShare(lens[b], max);
  }

  lemma {:induction false} HalfShare(l: nat, max: nat)
    requires 1 <= l <= max
    ensures Pow2(max - l) <= Pow2(max - 1) && (Pow2(max - l) == Pow2(max - 1) ==> l == 1)
  {
    if l > 1 {
      Pow2Mono(max - l, max - 2);
    }
  }

  /** The forced codes add to the cost exactly what was taken off in advance. */
  lemma ForcedCosts(f0: seq<nat>, f: seq<nat>, desc: TreeDesc, forced: set<nat>, lens: seq<nat>)
    requires desc.Valid() && Forced(f0, f, desc.elems, forced) && |lens| == |f|
    requires forall x :: x in forced ==> lens[x] == 1
    ensures Sum(Used(f, desc.elems), DynCosts(desc, f, lens)) - |forced| == Sum(Used(f0, desc.elems), DynCosts(desc, f0, lens))
    ensures Sum(Used(f, desc.elems), StatCosts(desc, f)) - Sum(forced, StaticTerms(desc, desc.elems))
         == Sum(Used(f0, desc.elems), StatCosts(desc, f0))
  {
    ForcedDynCosts(f0, f, desc, forced, lens);
    ForcedStatCosts(f0, f, desc, forced);
  }

  lemma ForcedDynCosts(f0: seq<nat>, f: seq<nat>, desc: TreeDesc, forced: set<nat>, lens: seq<nat>)
    requires desc.Valid() && Forced(f0, f, desc.elems, forced) && |lens| == |f|
    requires forall x :: x in forced ==> lens[x] == 1
    ensures Sum(Used(f, desc.elems), DynCosts(desc, f, lens)) - |forced| == Sum(Used(f0, desc.elems), DynCosts(desc, f0, lens))
  {
    hide Sum;
    var leaves, used := Used(f, desc.elems), Used(f0, desc.elems);
    ForcedUsed(f0, f, desc.elems, forced);
    SumSplit(leaves, used, forced, DynCosts(desc, f, lens));
    SumEq(used, DynCosts(desc, f, lens), used, DynCosts(desc, f0, lens));
    SumOfOnes(forced, DynCosts(desc, f, lens));
  }

  lemma ForcedStatCosts(f0: seq<nat>, f: seq<nat>, desc: TreeDesc, forced: set<nat>)
    requires desc.Valid() && Forced(f0, f, desc.elems, forced)
    ensures Sum(Used(f, desc.elems), StatCosts(desc, f)) - Sum(forced, StaticTerms(desc, desc.elems))
         == Sum(Used(f0, desc.elems), StatCosts(desc, f0))
  {
    hide Sum, Bill;
    var leaves, used, costs := Used(f, desc.elems), Used(f0, desc.elems), StatCosts(desc, f);
    ForcedUsed(f0, f, desc.elems, forced);
    SumSplit(leaves, used, forced, costs);
    SumEq(used, costs, used, StatCosts(desc, f0));
    SumPrefix(forced, costs, desc.elems);
    forall x | x in forced ensures x < desc.elems && costs[x] == desc.StaticLen(x) { ForcedBill(f0, f, desc, forced, x); }
    SumEq(forced, costs[..desc.elems], forced, StaticTerms(desc, desc.elems));
  }

  /** A forced symbol has no extra bits. */
  lemma ForcedBill(f0: seq<nat>, f: seq<nat>, desc: TreeDesc, forced: set<nat>, x: nat)
    requires desc.Valid() && Forced(f0, f, desc.elems, forced) && x in forced
    ensures x < desc.elems && StatCosts(desc, f)[x] == desc.StaticLen(x)
  {
  }

  /** The sums over the used symbols as weighted sums over all symbols. */
  lemma CostsOfUsed(f0: seq<nat>, desc: TreeDesc, dl: seq<nat>, maxCode: nat)
    requires desc.Valid() && desc.elems <= |f0| == |dl| && maxCode < desc.elems
    requires forall x :: x in Used(f0, desc.elems) ==> x <= maxCode
    ensures Sum(Used(f0, desc.elems), DynCosts(desc, f0, dl)) == Weighted(f0[..desc.elems], CodeCosts(desc, dl[..maxCode + 1]))
    ensures desc.staticLens != [] ==>
              Sum(Used(f0, desc.elems), StatCosts(desc, f0)) == Weighted(f0[..desc.elems], CodeCosts(desc, desc.staticLens))
    ensures desc.staticLens == [] ==> Sum(Used(f0, desc.elems), StatCosts(desc, f0)) == 0
  {
    hide Sum, Weighted, Bill;
    var n, used := desc.elems, Used(f0, desc.elems);
    var fe := f0[..n];
    ZeroBill();
    SumPrefix(used, DynCosts(desc, f0, dl), n);
    WeightedIsSum(fe, CodeCosts(desc, dl[..maxCode + 1]), used, DynCosts(desc, f0, dl)[..n]);
    SumPrefix(used, StatCosts(desc, f0), n);
    if desc.staticLens == [] {
      SumNone(used, StatCosts(desc, f0));
    } else {
      WeightedIsSum(fe, CodeCosts(desc, desc.staticLens), used, StatCosts(desc, f0)[..n]);
    }
  }

  lemma ZeroBill()
    ensures forall b: nat :: Bill(0, b) == 0
  {
  }

  // ----- Optimality -----

  lemma TreeIsOptimal(leaves: set<nat>, w: seq<nat>, dad: seq<nat>, merges: seq<(nat, nat)>, desc: TreeDesc, total: nat, dl: seq<nat>)
    requires Finished(leaves, desc.elems, merges) && Merged(leaves, desc.elems, merges, w, dad, total) && |dl| == |w|
    requires NodeExcess(dad, merges, desc) == 0
    requires forall x :: x in leaves ==> x < |dl| && dl[x] == Depth(dad, desc.elems + |merges| - 1, desc.maxLength, x)
    ensures desc.elems <= |w| && OptimalLens(leaves, w[..desc.elems], dl[..desc.elems])
  {
    hide Sum, Excess, Depth, Finished, Merged;
    var n := desc.elems;
    OptimalBasics(leaves, w, dad, merges, desc, total);
    forall lens': seq<nat>, m: nat | |lens'| == n && KraftOk(leaves, lens', m)
      ensures Cost(leaves, w[..n], dl[..n]) <= Cost(leaves, w[..n], lens')
    {
      OptimalAgainst(leaves, w, dad, merges, desc, total, dl, lens', m);
    }
  }

  lemma OptimalBasics(leaves: set<nat>, w: seq<nat>, dad: seq<nat>, merges: seq<(nat, nat)>, desc: TreeDesc, total: nat)
    requires Finished(leaves, desc.elems, merges) && Merged(leaves, desc.elems, merges, w, dad, total)
    ensures desc.elems <= |w| == |dad| && (forall x :: x in leaves ==> x < desc.elems) && merges != []
  {
  }

  lemma OptimalAgainst(leaves: set<nat>, w: seq<nat>, dad: seq<nat>, merges: seq<(nat, nat)>, desc: TreeDesc, total: nat, dl: seq<nat>,
                       lens': seq<nat>, m: nat)
    requires Finished(leaves, desc.elems, merges) && Merged(leaves, desc.elems, merges, w, dad, total) && |dl| == |w|
    requires NodeExcess(dad, merges, desc) == 0
    requires forall x :: x in leaves ==> x < |dl| && dl[x] == Depth(dad, desc.elems + |merges| - 1, desc.maxLength, x)
    requires |lens'| == desc.elems <= |w| && KraftOk(leaves, lens', m)
    ensures Cost(leaves, w[..desc.elems], dl[..desc.elems]) <= Cost(leaves, w[..desc.elems], lens')
  {
    hide Sum, Excess, Depth, Live, Greedy, WeightsAdd, FathersUp, KraftOk, Cost;
    var n := desc.elems;
    var padded := lens' + seq(|w| - n, _ => 0);
    assert padded[..n] == lens';
    KraftPrefix(leaves, padded, n, m);
    GreedyIsOptimal(leaves, w, dad, n, merges, desc.maxLength, padded, m);
    CostPrefix(leaves, w, padded, n);
    SameCost(leaves, w, Depths(dad, n + |merges| - 1, desc.maxLength), dl);
    CostPrefix(leaves, w, dl, n);
  }

  lemma KraftPrefix(leaves: set<nat>, lens: seq<nat>, n: nat, m: nat)
    requires n <= |lens| && forall x :: x in leaves ==> x < n
    ensures KraftOk(leaves, lens, m) <==> KraftOk(leaves, lens[..n], m)
  {
    hide Sum;
    SumPrefix(leaves, Shares(lens, m), n);
    assert Shares(lens, m)[..n] == Shares(lens[..n], m);
  }

  lemma CostPrefix(leaves: set<nat>, w: seq<nat>, lens: seq<nat>, n: nat)
    requires n <= |lens| == |w| && forall x :: x in leaves ==> x < n
    ensures Cost(leaves, w, lens) == Cost(leaves, w[..n], lens[..n])
  {
    hide Sum;
    SumPrefix(leaves, Products(w, lens), n);
    assert Products(w, lens)[..n] == Products(w[..n], lens[..n]);
  }

  lemma SameCost(leaves: set<nat>, w: seq<nat>, lens: seq<nat>, lens': seq<nat>)
    requires |w| == |lens| == |lens'| && forall x :: x in leaves ==> x < |w| && lens[x] == lens'[x]
    ensures Cost(leaves, w, lens) == Cost(leaves, w, lens')
  {
    hide Sum;
    SumEq(leaves, Products(w, lens), leaves, Products(w, lens'));
  }

  /** Some code lengths within the limit are minimal among all that satisfy Kraft's inequality. */
  ghost predicate OptimalWithin(leaves: set<nat>, f: seq<nat>, max: nat) {
    exists lens: seq<nat> :: OptimalLens(leaves, f, lens) && KraftOk(leaves, lens, max)
  }

  /** The lengths are minimal exactly if any lengths within the limit are; then no prefix code costs
      less.  That is so if none of them reaches the limit, and also if the frequencies sum up to
      less than the Fibonacci number that a higher tree weighs at least. */
  ghost predicate BestWithin(leaves: set<nat>, f: seq<nat>, lens: seq<nat>, max: nat) {
    && |lens| == |f| && (forall x :: x in leaves ==> x < |lens|)
    && (OptimalLens(leaves, f, lens) <==> OptimalWithin(leaves, f, max))
    && (OptimalLens(leaves, f, lens) ==> BestCode(leaves, f, lens))
    && ((forall x :: x in leaves ==> lens[x] < max) ==> OptimalLens(leaves, f, lens))
    && (Total(f) < Lightest(max + 1) ==> OptimalLens(leaves, f, lens))
    && NearOptimal(leaves, f, lens, max)
  }

  /** A heavier symbol never has a longer code, and the lengths are near lengths that are minimal
      without a limit. */
  ghost predicate NearOptimal(leaves: set<nat>, f: seq<nat>, lens: seq<nat>, max: nat) {
    exists full: seq<nat> :: OptimalLens(leaves, f, full) && Near(leaves, f, lens, full, max)
  }

  /** Where the merged tree is not cut. */
  lemma UncutIf(leaves: set<nat>, w: seq<nat>, hgt: seq<nat>, dad: seq<nat>, merges: seq<(nat, nat)>, desc: TreeDesc, total: nat)
    requires Finished(leaves, desc.elems, merges) && Merged(leaves, desc.elems, merges, w, dad, total) && Weighty(leaves, w)
    requires Balanced(leaves, w, hgt, desc.elems, merges) && desc.elems <= |w|
    ensures OptimalWithin(leaves, w[..desc.elems], desc.maxLength) ==> NodeExcess(dad, merges, desc) == 0
    ensures total < Lightest(desc.maxLength + 1) ==> NodeExcess(dad, merges, desc) == 0
  {
    hide Sum, Excess, Live, Greedy, WeightsAdd, FathersUp, Balanced, Lightest, OptimalLens, History;
    var n := desc.elems;
    if lens: seq<nat> :| OptimalLens(leaves, w[..n], lens) && KraftOk(leaves, lens, desc.maxLength) {
      OptimalIsUncut(leaves, w, hgt, dad, merges, desc, total, lens);
    }
    if total < Lightest(desc.maxLength + 1) {
      RootWeight(leaves, w, dad, merges, desc, total);
      assert HeightsAdd(hgt, leaves, n, merges) by { BalancedHeights(leaves, w, hgt, n, merges); }
      LightIsUncut(leaves, w, hgt, dad, n, merges, desc.maxLength);
    }
  }

  lemma BalancedHeights(leaves: set<nat>, w: seq<nat>, hgt: seq<nat>, elems: nat, merges: seq<(nat, nat)>)
    requires Balanced(leaves, w, hgt, elems, merges)
    ensures HeightsAdd(hgt, leaves, elems, merges)
  {
  }

  lemma OptimalIsUncut(leaves: set<nat>, w: seq<nat>, hgt: seq<nat>, dad: seq<nat>, merges: seq<(nat, nat)>, desc: TreeDesc, total: nat, lens: seq<nat>)
    requires Finished(leaves, desc.elems, merges) && Merged(leaves, desc.elems, merges, w, dad, total)
    requires Balanced(leaves, w, hgt, desc.elems, merges) && desc.elems <= |w|
    requires OptimalLens(leaves, w[..desc.elems], lens) && KraftOk(leaves, lens, desc.maxLength)
    ensures NodeExcess(dad, merges, desc) == 0
  {
    hide Sum, Excess, Live, Greedy, WeightsAdd, FathersUp, Balanced, KraftOk, Cost, TreeLens, History;
    var n, k := desc.elems, |merges|;
    OptimalBasics(leaves, w, dad, merges, desc, total);
    var tree, padded := TreeLens(dad, n, k), lens + seq(|w| - n, _ => 0);
    assert padded[..n] == lens;
    TreeCost(leaves, w, dad, n, merges);
    KraftPrefix(leaves, tree, n, n + k);
    KraftPrefix(leaves, padded, n, desc.maxLength);
    CostPrefix(leaves, w, tree, n);
    CostPrefix(leaves, w, padded, n);
    CheapIsUncut(leaves, w, hgt, dad, n, merges, desc.maxLength, padded);
  }

  lemma RootWeight(leaves: set<nat>, w: seq<nat>, dad: seq<nat>, merges: seq<(nat, nat)>, desc: TreeDesc, total: nat)
    requires Finished(leaves, desc.elems, merges) && Merged(leaves, desc.elems, merges, w, dad, total)
    ensures desc.elems + |merges| - 1 < |w| && w[desc.elems + |merges| - 1] == total
  {
    hide Sum, Greedy, FathersUp, WeightsAdd;
    RootAlone(leaves, desc.elems, merges);
    SumSingle(desc.elems + |merges| - 1, w);
  }

  // ----- Lengths that have been cut -----

  lemma {:induction false} DepthCut(dad: seq<nat>, root: nat, max: nat, big: nat, n: nat)
    requires n <= root < big
    ensures Depth(dad, root, max, n) == if Depth(dad, root, big, n) < max then Depth(dad, root, big, n) else max
    decreases root - n
  {
    if n < root && n < |dad| && n < dad[n] <= root {
      DepthCut(dad, root, max, big, dad[n]);
      DepthBelow(dad, root, big, dad[n]);
    }
  }

  /** Every leaf has a father. */
  lemma LeafIsBelow(leaves: set<nat>, elems: nat, merges: seq<(nat, nat)>, dad: seq<nat>, big: nat, x: nat)
    requires Finished(leaves, elems, merges) && FathersUp(dad, elems, merges) && x in leaves && big >= 1
    ensures x < elems && Depth(dad, elems + |merges| - 1, big, x) >= 1
  {
    RootAlone(leaves, elems, merges);
    assert Live(leaves, elems, merges, 0) == leaves;
    var m := MergedSometime(leaves, elems, merges, x, 0);
    assert dad[x] == elems + m;
  }

  /** The uncut lengths, what the limit makes of them, and by how much that overfills the code space. */
  lemma CutTree(leaves: set<nat>, dad: seq<nat>, elems: nat, merges: seq<(nat, nat)>, max: nat)
    requires Finished(leaves, elems, merges) && FathersUp(dad, elems, merges)
    ensures var full, cut := TreeLens(dad, elems, |merges|), Depths(dad, elems + |merges| - 1, max);
            && (forall x :: x in leaves ==> x < |full| && full[x] >= 1 && cut[x] == CutOff(full, max)[x])
            && OverBy(leaves, full, max) == Excess(dad, elems + |merges| - 1, max, elems, |merges|, 0)
  {
    hide Sum, Excess, Depth, Live, History, FathersUp;
    var k, root := |merges|, elems + |merges| - 1;
    var full, cut := TreeLens(dad, elems, k), Depths(dad, root, max);
    DadSize(dad, elems, merges);
    forall x | x in leaves ensures x < |full| && full[x] >= 1 && cut[x] == CutOff(full, max)[x] {
      LeafIsBelow(leaves, elems, merges, dad, elems + k, x);
      DepthCut(dad, root, max, elems + k, x);
    }
    CutOffSame(leaves, full, cut, max, 0);
    LiveZero(leaves, elems, merges);
    CutDepthsKraft(leaves, dad, elems, merges, max, 0);
  }

  lemma DadSize(dad: seq<nat>, elems: nat, merges: seq<(nat, nat)>)
    requires FathersUp(dad, elems, merges)
    ensures elems + |merges| <= |dad|
  {
  }

  /** The uncut lengths are minimal. */
  lemma FullIsOptimal(leaves: set<nat>, w: seq<nat>, dad: seq<nat>, merges: seq<(nat, nat)>, desc: TreeDesc, total: nat)
    requires Finished(leaves, desc.elems, merges) && Merged(leaves, desc.elems, merges, w, dad, total)
    ensures desc.elems <= |w| == |dad| && OptimalLens(leaves, w[..desc.elems], TreeLens(dad, desc.elems, |merges|)[..desc.elems])
  {
    hide Sum, Live, Greedy, WeightsAdd, FathersUp, KraftOk, Cost, TreeLens, History;
    var n, tree := desc.elems, TreeLens(dad, desc.elems, |merges|);
    OptimalBasics(leaves, w, dad, merges, desc, total);
    TreeCost(leaves, w, dad, n, merges);
    CostPrefix(leaves, w, tree, n);
    LiveZero(leaves, n, merges);
    forall lens': seq<nat>, m: nat | |lens'| == n && KraftOk(leaves, lens', m)
      ensures Cost(leaves, w[..n], tree[..n]) <= Cost(leaves, w[..n], lens')
    {
      var padded := lens' + seq(|w| - n, _ => 0);
      assert padded[..n] == lens';
      KraftPrefix(leaves, padded, n, m);
      CostPrefix(leaves, w, padded, n);
      GreedyLowerBound(leaves, w, n, merges, 0, padded, m);
    }
  }

  lemma CutIsNear(leaves: set<nat>, w: seq<nat>, dad: seq<nat>, merges: seq<(nat, nat)>, desc: TreeDesc, total: nat, dl: seq<nat>)
    requires Finished(leaves, desc.elems, merges) && Merged(leaves, desc.elems, merges, w, dad, total) && |dl| == |w|
    requires LeafLens(leaves, dl, desc.maxLength) && Sorted(leaves, w, dl) && 1 <= desc.maxLength <= MAX_BITS
    requires RepairedFrom(leaves, Depths(dad, desc.elems + |merges| - 1, desc.maxLength), dl, desc.maxLength, NodeExcess(dad, merges, desc))
    ensures desc.elems <= |w| && NearOptimal(leaves, w[..desc.elems], dl[..desc.elems], desc.maxLength)
  {
    hide Sum, Live, Greedy, WeightsAdd, FathersUp, TreeLens, History, Near, Sorted, RepairedFrom, Excess, OverBy, OptimalLens, Depths;
    var n, max := desc.elems, desc.maxLength;
    var full, cut := TreeLens(dad, n, |merges|), Depths(dad, n + |merges| - 1, max);
    OptimalBasics(leaves, w, dad, merges, desc, total);
    CutTree(leaves, dad, n, merges, max);
    RepairedIsNear(leaves, w, full, cut, dl, max, NodeExcess(dad, merges, desc));
    FullIsOptimal(leaves, w, dad, merges, desc, total);
    NearPrefix(leaves, w, dl, full, max, n);
  }

  lemma NearPrefix(leaves: set<nat>, w: seq<nat>, dl: seq<nat>, full: seq<nat>, max: nat, n: nat)
    requires Near(leaves, w, dl, full, max) && n <= |w| && forall x :: x in leaves ==> x < n
    ensures Near(leaves, w[..n], dl[..n], full[..n], max)
  {
    hide Sum, NearAt;
    forall b | 0 <= b < max ensures NearAt(leaves, w[..n], dl[..n], full[..n], max, b) {
      assert NearAt(leaves, w, dl, full, max, b);
      NearAtPrefix(leaves, w, dl, full, max, n, b);
    }
  }

  lemma NearAtPrefix(leaves: set<nat>, w: seq<nat>, dl: seq<nat>, full: seq<nat>, max: nat, n: nat, b: nat)
    requires |w| == |dl| == |full| && NearAt(leaves, w, dl, full, max, b) && n <= |w| && forall x :: x in leaves ==> x < n
    ensures NearAt(leaves, w[..n], dl[..n], full[..n], max, b)
  {
    hide Sum, Cost;
    SumPrefix(leaves, Slack(full, max, b), n);
    assert Slack(full, max, b)[..n] == Slack(full[..n], max, b);
    SumPrefix(leaves, Shares(full, max), n);
    assert Shares(full, max)[..n] == Shares(full[..n], max);
    CostPrefix(leaves, w, dl, n);
    CostPrefix(leaves, w, full, n);
    forall l: nat ensures Sum(leaves, Ind(dl[..n], l)) == Sum(leaves, Ind(dl, l)) && Sum(leaves, Ind(full[..n], l)) == Sum(leaves, Ind(full, l)) {
      CountPrefix(leaves, dl, n, l);
      CountPrefix(leaves, full, n, l);
    }
    forall top: nat ensures TopWeight(leaves, w[..n], full[..n], b, top) <==> TopWeight(leaves, w, full, b, top) {
    }
  }

  lemma CountPrefix(leaves: set<nat>, lens: seq<nat>, n: nat, l: nat)
    requires n <= |lens| && forall x :: x in leaves ==> x < n
    ensures Sum(leaves, Ind(lens[..n], l)) == Sum(leaves, Ind(lens, l))
  {
    hide Sum;
    SumPrefix(leaves, Ind(lens, l), n);
    assert Ind(lens, l)[..n] == Ind(lens[..n], l);
  }

  /** Minimal lengths follow the weights; otherwise an exchange would save something. */
  lemma OptimalIsSorted(leaves: set<nat>, f: seq<nat>, lens: seq<nat>, max: nat)
    requires OptimalLens(leaves, f, lens) && KraftOk(leaves, lens, max)
    ensures Sorted(leaves, f, lens)
  {
    hide Sum, KraftOk, Cost, Saving;
    forall x, y | x in leaves && y in leaves && x < |f| && y < |f| && f[x] > f[y] ensures lens[x] <= lens[y] {
      if lens[x] > lens[y] {
        SwapImproves(leaves, f, lens, y, x, max);
        Rearrange(f[y], f[x], lens[y], lens[x]);
      }
    }
  }

  lemma UncutIsNear(leaves: set<nat>, w: seq<nat>, dl: seq<nat>, n: nat, max: nat)
    requires n <= |w| == |dl| && (forall x :: x in leaves ==> x < n) && OptimalLens(leaves, w[..n], dl[..n])
    requires LeafLens(leaves, dl, max) && Sum(leaves, Shares(dl, max)) == Pow2(max)
    ensures NearOptimal(leaves, w[..n], dl[..n], max)
  {
    hide Sum, OptimalLens, Near, Sorted;
    KraftPrefix(leaves, dl, n, max);
    OptimalIsSorted(leaves, w[..n], dl[..n], max);
    SumPrefix(leaves, Shares(dl, max), n);
    assert Shares(dl, max)[..n] == Shares(dl[..n], max);
    NearItself(leaves, w[..n], dl[..n], max);
  }

  /** Later places in the tail of the heap array hold no heavier nodes. */
  lemma {:induction false} TailRises(h: seq<nat>, lo: nat, leaves: set<nat>, elems: nat, merges: seq<(nat, nat)>, w: seq<nat>, i: nat, j: nat)
    requires Finished(leaves, elems, merges) && TailOrder(h, merges) && WeightsAdd(w, elems, merges) && Greedy(leaves, w, elems, merges)
    requires lo == HEAP_SIZE - 2 * |merges| - 1 && lo <= i <= j < HEAP_SIZE && h[lo] == elems + |merges| - 1 && h[i] < |w|
    ensures h[j] < |w| && w[h[i]] >= w[h[j]]
    decreases j - i
  {
    if i < j {
      TailDecreases(h, lo, leaves, elems, merges, w, i);
      TailRises(h, lo, leaves, elems, merges, w, i + 1, j);
    }
  }

  lemma RisingIsSorted(h: seq<nat>, lo: nat, dad: seq<nat>, leaves: set<nat>, merges: seq<(nat, nat)>, desc: TreeDesc, maxCode: nat,
                       w: seq<nat>, total: nat, dl: seq<nat>)
    requires TreeReady(h, lo, dad, leaves, merges, desc, maxCode) && Merged(leaves, desc.elems, merges, w, dad, total)
    requires Rising(h, lo, leaves, dl) && |dl| == |w|
    ensures Sorted(leaves, w, dl)
  {
    hide Finished, Greedy, WeightsAdd, TailOrder, FathersUp, Sum, Pow2, Visited, TreeDesc.Valid;
    ReadyOrder(h, lo, dad, leaves, merges, desc, maxCode);
    forall x, y | x in leaves && y in leaves && x < |w| && y < |w| && w[x] > w[y] ensures dl[x] <= dl[y] {
      var i := PlaceOf(h, lo, dad, desc.elems + |merges| - 1, leaves, maxCode, x);
      var j := PlaceOf(h, lo, dad, desc.elems + |merges| - 1, leaves, maxCode, y);
      HeapLength(h, merges);
      if j <= i { TailRises(h, lo, leaves, desc.elems, merges, w, j, i); }
      assert i < j;
    }
  }

  lemma HeapLength(h: seq<nat>, merges: seq<(nat, nat)>)
    requires TailOrder(h, merges)
    ensures |h| == HEAP_SIZE
  {
  }

  lemma PlaceOf(h: seq<nat>, lo: nat, dad: seq<nat>, root: nat, leaves: set<nat>, maxCode: nat, x: nat) returns (i: nat)
    requires TreeOrder(h, lo, dad, root, leaves, maxCode) && x in leaves
    ensures lo <= i < |h| && h[i] == x
  {
    assert x in Visited(h, lo, |h|);
    i :| lo <= i < |h| && h[i] == x;
  }

  /** From the tree, cut or not, to what its lengths are worth. */
  lemma TreeIsBest(leaves: set<nat>, w: seq<nat>, hgt: seq<nat>, dad: seq<nat>, merges: seq<(nat, nat)>, desc: TreeDesc, total: nat, dl: seq<nat>)
    requires Finished(leaves, desc.elems, merges) && Merged(leaves, desc.elems, merges, w, dad, total) && Weighty(leaves, w)
    requires Balanced(leaves, w, hgt, desc.elems, merges) && |dl| == |w| && desc.elems <= |w| && total == Total(w[..desc.elems])
    requires LeafLens(leaves, dl, desc.maxLength) && Sum(leaves, Shares(dl, desc.maxLength)) == Pow2(desc.maxLength)
    requires NodeExcess(dad, merges, desc) == 0 ==>
               forall x :: x in leaves ==> x < |dl| && dl[x] == Depth(dad, desc.elems + |merges| - 1, desc.maxLength, x)
    requires NodeExcess(dad, merges, desc) > 0 ==> exists x :: x in leaves && x < |dl| && dl[x] == desc.maxLength
    requires NodeExcess(dad, merges, desc) > 0 ==> Sorted(leaves, w, dl)
    requires NodeExcess(dad, merges, desc) > 0 ==>
               RepairedFrom(leaves, Depths(dad, desc.elems + |merges| - 1, desc.maxLength), dl, desc.maxLength, NodeExcess(dad, merges, desc))
    requires 1 <= desc.maxLength <= MAX_BITS
    ensures BestWithin(leaves, w[..desc.elems], dl[..desc.elems], desc.maxLength)
  {
    hide Sum, Shares, Finished, Merged, Balanced, Depth, NodeExcess, OptimalLens, BestCode, Lightest, Total, Near, Sorted, RepairedFrom;
    var n, max := desc.elems, desc.maxLength;
    OptimalBasics(leaves, w, dad, merges, desc, total);
    UncutIf(leaves, w, hgt, dad, merges, desc, total);
    KraftPrefix(leaves, dl, n, max);
    if NodeExcess(dad, merges, desc) == 0 {
      TreeIsOptimal(leaves, w, dad, merges, desc, total, dl);
      UncutIsNear(leaves, w, dl, n, max);
    } else {
      CutIsNear(leaves, w, dad, merges, desc, total, dl);
    }
    if OptimalLens(leaves, w[..n], dl[..n]) { BeatsPrefixCodes(leaves, w[..n], dl[..n]); }
  }

  // ----- The whole function -----

  /** A code ready for use: symbols 0..maxCode with a complete set of lengths within the limit,
      each used symbol with its codeword, and the bits it takes added to both totals. */
  ghost predicate TreeDone(fc: seq<nat>, dl: seq<nat>, maxCode: nat, f0: seq<nat>, desc: TreeDesc, o: int, st: int, opt: nat, stat: nat) {
    && desc.Valid() && 1 <= maxCode < desc.elems < |dl| && |dl| == |fc| && |f0| == desc.elems
    && var lens := dl[..maxCode + 1];
       && LensWithin(lens, desc.maxLength) && Complete(lens) && lens[maxCode] > 0
       && (forall n :: 0 <= n <= maxCode ==> Codes.HasCode(fc[n], lens, n))
       && (forall n :: 0 <= n < desc.elems && f0[n] != 0 ==> n <= maxCode && lens[n] > 0)
       && (forall n :: maxCode < n < desc.elems ==> dl[n] == 0)
       && opt == Wrap32(o + Weighted(f0, CodeCosts(desc, lens)))
       && stat == Wrap32(st + if desc.staticLens == [] then 0 else Weighted(f0, CodeCosts(desc, desc.staticLens)))
  }

  lemma AfterCollect(h: seq<nat>, len: nat, maxCode: int, f: seq<nat>, dl: seq<nat>, desc: TreeDesc, o: int, st: int, opt: nat, stat: nat)
    requires desc.Valid() && Collected(h, len, maxCode, f, dl, desc.elems) && desc.elems + 1 < |h| && |f| == |dl|
    requires opt == Wrap32(o) && stat == Wrap32(st)
    ensures Forcing(h, len, maxCode, f, f, desc, {}, o, st, opt, stat)
  {
    hide Wrap32, TreeDesc.Extra;
    SumEmpty(StaticTerms(desc, desc.elems));
    var s := Used(f, desc.elems);
    CardSet(s);
    assert |multiset(h[1..len + 1])| == len;
  }

  /** The leaves after forcing, with everything the merging needs. */
  lemma AfterForce(h: seq<nat>, len: nat, maxCode: int, f0: seq<nat>, f: seq<nat>, desc: TreeDesc, forced: set<nat>, o: int, st: int, opt: nat, stat: nat)
    requires Forcing(h, len, maxCode, f0, f, desc, forced, o, st, opt, stat) && len >= 2
    requires Total(f0[..desc.elems]) + 2 < TWO16
    ensures var leaves := Used(f, desc.elems);
            && |leaves| == len <= desc.elems && maxCode >= 0 && maxCode in leaves && Listed(h, len, leaves)
            && (forall x :: x in leaves ==> x <= maxCode) && 1 <= maxCode < desc.elems
            && 0 <= Sum(leaves, f) < TWO16
  {
    hide Wrap32, Sum, Total;
    var leaves, n := Used(f, desc.elems), desc.elems;
    assert |leaves - {maxCode as nat}| == len - 1;
    var other :| other in leaves - {maxCode as nat};
    SumPrefix(leaves, f, n);
    ForcedUsed(f0, f, n, forced);
    var used := Used(f0, n);
    SumSplit(leaves, used, forced, f[..n]);
    SumEq(used, f[..n], used, f0[..n]);
    TotalIsSum(f0[..n], used);
    SumOfOnes(forced, f[..n]);
    SmallSet(forced, leaves);
  }

  lemma SmallSet(s: set<nat>, t: set<nat>)
    requires s <= t && (s != {} ==> |t| <= 2)
    ensures |s| <= 2
  {
    if s != {} {
      assert t == s + (t - s);
      assert |t| == |s| + |t - s|;
    }
  }

  /** From the finished lengths to the contract of `build_tree`. */
  lemma AfterLens(fc: seq<nat>, dl: seq<nat>, bl: seq<nat>, f0: seq<nat>, f: seq<nat>, desc: TreeDesc, forced: set<nat>,
                  maxCode: nat, o: int, st: int, opt: nat, stat: nat)
    requires desc.Valid() && Forced(f0, f, desc.elems, forced) && |fc| == |f| == |dl| && maxCode < desc.elems
    requires forall x :: 0 <= x < desc.elems ==> fc[x] == f[x]
    requires var leaves := Used(f, desc.elems);
             && maxCode in leaves && (forall x :: x in leaves ==> x <= maxCode) && (forced != {} ==> |leaves| == 2)
             && (forall x :: 0 <= x <= maxCode && x !in leaves ==> dl[x] == 0)
             && LensDone(dl, bl, leaves, desc, fc, o - |forced|, st - Sum(forced, StaticTerms(desc, desc.elems)), opt, stat)
    ensures var lens := dl[..maxCode + 1];
            && LensWithin(lens, desc.maxLength) && Complete(lens) && Codes.CountsOf(bl, lens) && lens[maxCode] > 0
            && (forall n :: 0 <= n < desc.elems && f0[n] != 0 ==> n <= maxCode && lens[n] > 0)
            && opt == Wrap32(o + Weighted(f0[..desc.elems], CodeCosts(desc, lens)))
            && stat == Wrap32(st + if desc.staticLens == [] then 0 else Weighted(f0[..desc.elems], CodeCosts(desc, desc.staticLens)))
  {
    hide Sum, Wrap32, Weighted, CodeCosts, Kraft, CountLen, DynCosts, StatCosts, Shares, CountsLens, StaticTerms, TreeDesc.Valid, Complete, Codes.CountsOf;
    var leaves, n := Used(f, desc.elems), desc.elems;
    if forced != {} { TwoLeaves(leaves, dl, desc.maxLength); }
    ForcedUsed(f0, f, n, forced);
    ForcedCosts(f0, f, desc, forced, dl);
    SameFreqs(fc, f, desc, dl);
    CostsOfUsed(f0, desc, dl, maxCode);
    ValidMax(desc);
    LensAreComplete(dl, maxCode + 1, bl, leaves, desc.maxLength);
    forall i | 0 <= i < n && f0[i] != 0 ensures i <= maxCode && dl[..maxCode + 1][i] > 0 {
      assert i in Used(f0, n) && i in leaves;
    }
  }

  lemma CompleteKraft(lens: seq<nat>)
    requires Complete(lens)
    ensures LensWithin(lens, MAX_BITS) && Kraft(lens, MAX_BITS) <= Pow2(MAX_BITS)
  {
  }

  lemma ValidMax(desc: TreeDesc)
    requires desc.Valid()
    ensures 1 <= desc.maxLength <= MAX_BITS
  {
  }

  lemma SameFreqs(fc: seq<nat>, f: seq<nat>, desc: TreeDesc, dl: seq<nat>)
    requires |fc| == |f| == |dl| && desc.elems <= |f| && forall x :: 0 <= x < desc.elems ==> fc[x] == f[x]
    ensures Sum(Used(f, desc.elems), DynCosts(desc, fc, dl)) == Sum(Used(f, desc.elems), DynCosts(desc, f, dl))
    ensures Sum(Used(f, desc.elems), StatCosts(desc, fc)) == Sum(Used(f, desc.elems), StatCosts(desc, f))
  {
    hide Sum;
    SumEq(Used(f, desc.elems), DynCosts(desc, fc, dl), Used(f, desc.elems), DynCosts(desc, f, dl));
    SumEq(Used(f, desc.elems), StatCosts(desc, fc), Used(f, desc.elems), StatCosts(desc, f));
  }

  /** What the lengths are worth for two or more symbols; a symbol alone has length one. */
  ghost predicate Minimal(f0: seq<nat>, lens: seq<nat>, max: nat) {
    && |lens| == |f0|
    && var used := Used(f0, |f0|);
       if |used| >= 2 then BestWithin(used, f0, lens, max) else forall x :: x in used ==> lens[x] == 1
  }

  /** The tree has been merged from the frequencies f0, some symbols having been forced. */
  ghost predicate Prepared(h: seq<nat>, lo: nat, w: seq<nat>, hgt: seq<nat>, dad: seq<nat>, f0: seq<nat>, f: seq<nat>, desc: TreeDesc, merges: seq<(nat, nat)>,
                           forced: set<nat>, maxCode: nat, total: nat, o: int, st: int, opt: nat, stat: nat) {
    && desc.Valid() && Forced(f0, f, desc.elems, forced) && |w| == |f| == |dad| && 1 <= maxCode < desc.elems && merges != []
    && (forall x :: 0 <= x < desc.elems ==> w[x] == f[x])
    && opt == Wrap32(o - |forced|) && stat == Wrap32(st - Sum(forced, StaticTerms(desc, desc.elems)))
    && var leaves := Used(f, desc.elems);
       && maxCode in leaves && (forced != {} ==> |leaves| == 2)
       && (forall x :: 0 <= x < desc.elems && x !in leaves ==> dad[x] == 0)
       && TreeReady(h, lo, dad, leaves, merges, desc, maxCode)
       && Merged(leaves, desc.elems, merges, w, dad, total) && Balanced(leaves, w, hgt, desc.elems, merges) && total == Sum(leaves, f)
  }

  /** Collects the used symbols, forces two of them and merges them into a tree. */
  method MergeSymbols(heap: array<nat>, depth: array<nat>, fc: array<nat>, dl: array<nat>, desc: TreeDesc,
                      optLen: nat, staticLen: nat, ghost o: int, ghost st: int)
    returns (maxCode: nat, heapMax: nat, optLen': nat, staticLen': nat,
             ghost f: seq<nat>, ghost merges: seq<(nat, nat)>, ghost forced: set<nat>, ghost total: nat)
    requires heap != fc && heap != dl && heap != depth && fc != dl && fc != depth && dl != depth
    requires desc.Valid() && 2 * desc.elems < HEAP_SIZE == heap.Length && desc.elems < Pow2(desc.maxLength)
    requires 2 * desc.elems <= fc.Length == dl.Length <= depth.Length
    requires Total(fc[..desc.elems]) + 2 < TWO16
    requires optLen == Wrap32(o) && staticLen == Wrap32(st)
    modifies heap, depth, fc, dl
    ensures Prepared(heap[..], heapMax, fc[..], depth[..], dl[..], old(fc[..]), f, desc, merges, forced, maxCode, total, o, st, optLen', staticLen')
  {
    hide Sum, Wrap32, Forcing, Merging, Merged, Balanced, TreeReady, Collected, Queue, Total, Listed, TreeDesc.Valid, Pow2, Forced;
    ghost var f0: seq<nat>, n := fc[..], desc.elems;
    var heapLen, mc := CollectSymbols(heap, fc, dl, depth, desc.elems);
    AfterCollect(heap[..], heapLen, mc, f0, dl[..], desc, o, st, optLen, staticLen);
    CollectedZeros(heap[..], heapLen, mc, f0, dl[..], n);
    heapLen, mc, optLen', staticLen', forced := ForceTwo(heap, heapLen, mc, fc, depth, desc, optLen, staticLen, o, st);
    f := fc[..];
    AfterForce(heap[..], heapLen, mc, f0, f, desc, forced, o, st, optLen', staticLen');
    ForcingFacts(heap[..], heapLen, mc, f0, f, desc, forced, o, st, optLen', staticLen');
    maxCode := mc;
    ghost var leaves := Used(f, n);
    total := Sum(leaves, f);
    Heapify(heap, heapLen, fc, depth, leaves);
    MergingStart(heap[..], heapLen, leaves, n, f, dl[..], depth[..], total);
    heapMax, merges := MergeAll(heap, heapLen, fc, dl, depth, desc, leaves, total, maxCode);
  }

  method BuildTree(heap: array<nat>, depth: array<nat>, blCount: array<nat>, fc: array<nat>, dl: array<nat>, desc: TreeDesc,
                   optLen: nat, staticLen: nat, ghost o: int, ghost st: int)
    returns (maxCode: nat, optLen': nat, staticLen': nat)
    requires heap != fc && heap != dl && heap != depth && heap != blCount && fc != dl && fc != depth && fc != blCount
    requires dl != depth && dl != blCount && depth != blCount
    requires desc.Valid() && 2 * desc.elems < HEAP_SIZE == heap.Length && desc.elems < Pow2(desc.maxLength)
    requires 2 * desc.elems <= fc.Length == dl.Length <= depth.Length && blCount.Length == MAX_BITS + 1
    requires Total(fc[..desc.elems]) + 2 < TWO16
    requires optLen == Wrap32(o) && staticLen == Wrap32(st)
    modifies heap, depth, blCount, fc, dl
    ensures TreeDone(fc[..], dl[..], maxCode, old(fc[..desc.elems]), desc, o, st, optLen', staticLen')
    ensures Minimal(old(fc[..desc.elems]), dl[..desc.elems], desc.maxLength)
  {
    hide Sum, Wrap32, Weighted, CodeCosts, LensDone, Merged, Balanced, TreeReady, Depth, NodeExcess, Total, Complete,
         Codes.CountsOf, Codes.HasCode, TreeDesc.Valid, Pow2, Kraft, Forced, BestWithin, Minimal, LeafLens, Shares,
         Rising, RepairedFrom, Sorted, Depths;
    ghost var f0: seq<nat>, n := fc[..], desc.elems;
    var heapMax: nat;
    ghost var f: seq<nat>, merges: seq<(nat, nat)>, forced: set<nat>, total: nat;
    maxCode, heapMax, optLen', staticLen', f, merges, forced, total := MergeSymbols(heap, depth, fc, dl, desc, optLen, staticLen, o, st);
    ghost var w: seq<nat>, hgt: seq<nat>, dad: seq<nat>, leaves := fc[..], depth[..], dl[..], Used(f, n);
    optLen', staticLen' := GenBitlen.GenBitlen(heap, heapMax, fc, dl, blCount, desc, maxCode, optLen', staticLen', leaves, merges,
                                               o - |forced|, st - Sum(forced, StaticTerms(desc, n)));
    ReadyFinished(heap[..], heapMax, dad, leaves, merges, desc, maxCode);
    DoneLens(dl[..], blCount[..], leaves, desc, w, o - |forced|, st - Sum(forced, StaticTerms(desc, n)), optLen', staticLen');
    LeavesTotal(f, w, n);
    ValidMax(desc);
    if NodeExcess(dad, merges, desc) > 0 { RisingIsSorted(heap[..], heapMax, dad, leaves, merges, desc, maxCode, w, total, dl[..]); }
    TreeIsBest(leaves, w, hgt, dad, merges, desc, total, dl[..]);
    ReadyLeaves(heap[..], heapMax, dad, leaves, merges, desc, maxCode);
    IsMinimal(f0, f, w, dl[..], desc, forced);
    assert f0[..n] == old(fc[..desc.elems]);
    ghost var lens: seq<nat> := dl[..];
    AfterLens(w, dl[..], blCount[..], f0, f, desc, forced, maxCode, o, st, optLen', staticLen');
    CompleteKraft(dl[..maxCode + 1]);
    Codes.GenCodes(fc, dl, blCount, maxCode);
    assert dl[..n] == lens[..n];
  }

  lemma DoneLens(dl: seq<nat>, bl: seq<nat>, leaves: set<nat>, desc: TreeDesc, f: seq<nat>, o: int, st: int, opt: nat, stat: nat)
    requires LensDone(dl, bl, leaves, desc, f, o, st, opt, stat)
    ensures LeafLens(leaves, dl, desc.maxLength) && Sum(leaves, Shares(dl, desc.maxLength)) == Pow2(desc.maxLength)
  {
  }

  /** What holds of the symbols after forcing, said of the frequencies on entry. */
  lemma IsMinimal(f0: seq<nat>, f: seq<nat>, w: seq<nat>, dl: seq<nat>, desc: TreeDesc, forced: set<nat>)
    requires Forced(f0, f, desc.elems, forced) && |w| == |f| == |dl| && forall x :: 0 <= x < desc.elems ==> w[x] == f[x]
    requires var leaves := Used(f, desc.elems);
             && (forced != {} ==> |leaves| == 2) && |leaves| >= 2
             && LeafLens(leaves, dl, desc.maxLength) && Sum(leaves, Shares(dl, desc.maxLength)) == Pow2(desc.maxLength)
             && BestWithin(leaves, w[..desc.elems], dl[..desc.elems], desc.maxLength)
    ensures Minimal(f0[..desc.elems], dl[..desc.elems], desc.maxLength)
  {
    hide BestWithin, Sum, Shares;
    var n, leaves := desc.elems, Used(f, desc.elems);
    ForcedUsed(f0, f, n, forced);
    assert Used(f0[..n], n) == Used(f0, n);
    if forced == {} {
      assert w[..n] == f0[..n];
    } else {
      TwoLeaves(leaves, dl, desc.maxLength);
      FewerUsed(Used(f0, n), forced);
    }
  }

  lemma LeavesTotal(f: seq<nat>, w: seq<nat>, n: nat)
    requires n <= |f| == |w| && forall x :: 0 <= x < n ==> w[x] == f[x]
    ensures Sum(Used(f, n), f) == Total(w[..n]) && Weighty(Used(f, n), w)
  {
    hide Sum, Total;
    assert w[..n] == f[..n];
    SumPrefix(Used(f, n), f, n);
    TotalIsSum(f[..n], Used(f, n));
  }

  lemma FewerUsed(s: set<nat>, t: set<nat>)
    requires s !! t && t != {} && |s + t| == 2
    ensures |s| < 2
  {
    assert |s + t| == |s| + |t|;
  }

  lemma ReadyLeaves(h: seq<nat>, lo: nat, dad: seq<nat>, leaves: set<nat>, merges: seq<(nat, nat)>, desc: TreeDesc, maxCode: nat)
    requires TreeReady(h, lo, dad, leaves, merges, desc, maxCode)
    ensures forall x :: x in leaves ==> x <= maxCode && |leaves| >= 2
  {
  }

  lemma CollectedZeros(h: seq<nat>, len: nat, maxCode: int, f: seq<nat>, dl: seq<nat>, n: nat)
    requires Collected(h, len, maxCode, f, dl, n)
    ensures n <= |f| && n <= |dl| && forall i :: 0 <= i < n && f[i] == 0 ==> dl[i] == 0
  {
  }

  lemma ForcingFacts(h: seq<nat>, len: nat, maxCode: int, f0: seq<nat>, f: seq<nat>, desc: TreeDesc, forced: set<nat>,
                     o: int, st: int, opt: nat, stat: nat)
    requires Forcing(h, len, maxCode, f0, f, desc, forced, o, st, opt, stat)
    ensures Forced(f0, f, desc.elems, forced) && (forced != {} ==> len <= 2)
    ensures opt == Wrap32(o - |forced|) && stat == Wrap32(st - Sum(forced, StaticTerms(desc, desc.elems)))
    ensures |f| == |f0| && forall x :: 0 <= x < |f| && x !in Used(f, desc.elems) && x < desc.elems ==> f0[x] == 0
    ensures forall x :: 0 <= x < desc.elems && f0[x] != 0 ==> f[x] == f0[x]
  {
  }

  lemma ReadyFinished(h: seq<nat>, lo: nat, dad: seq<nat>, leaves: set<nat>, merges: seq<(nat, nat)>, desc: TreeDesc, maxCode: nat)
    requires TreeReady(h, lo, dad, leaves, merges, desc, maxCode)
    ensures Finished(leaves, desc.elems, merges)
  {
  }
}
