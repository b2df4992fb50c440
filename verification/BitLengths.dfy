/** Code lengths from the merged tree: the first pass of `gen_bitlen` assigns depths cut off
    at the limit, the repair loop restores the Kraft equality on the length counts, and the
    last pass hands the repaired lengths out again. */
module BitLengths {
  import opened Bits
  import opened Sums
  import opened Huffman
  import opened TreeMerge

  /** Nodes at positions lo..hi-1 of the heap array. */
  ghost function Visited(h: seq<nat>, lo: nat, hi: nat): set<nat>
    requires lo <= hi <= |h|
  {
    set j | lo <= j < hi :: h[j]
  }

  /** The nodes at the high end of the heap array: the root first, every father before its
      sons, no node twice, and the symbols among them are exactly the leaves. */
  ghost predicate TreeOrder(h: seq<nat>, lo: nat, dad: seq<nat>, root: nat, leaves: set<nat>, maxCode: nat) {
    && lo < |h| && h[lo] == root && maxCode < root < |dad|
    && (forall i, j :: lo <= i < j < |h| ==> h[i] != h[j])
    && (forall j :: lo < j < |h| ==> h[j] < root && h[j] < dad[h[j]] <= root && dad[h[j]] in Visited(h, lo, j))
    && (forall j :: lo < j < |h| ==> (h[j] <= maxCode <==> h[j] in leaves))
    && (forall x :: x in leaves ==> x <= maxCode && x in Visited(h, lo, |h|))
  }

  // ----- The merge history gives such an order -----

  /** The merge number of heap position j, and the node there. */
  function MergeOf(j: nat): nat
    requires j < HEAP_SIZE
  {
    (HEAP_SIZE - 1 - j) / 2
  }

  lemma TailNode(h: seq<nat>, merges: seq<(nat, nat)>, j: nat)
    requires TailOrder(h, merges) && HEAP_SIZE - 2 * |merges| <= j < HEAP_SIZE
    ensures MergeOf(j) < |merges|
    ensures h[j] == if (HEAP_SIZE - 1 - j) % 2 == 0 then merges[MergeOf(j)].0 else merges[MergeOf(j)].1
  {
    var i := MergeOf(j);
    assert j == HEAP_SIZE - 1 - 2 * i || j == HEAP_SIZE - 2 - 2 * i;
  }

  lemma TailDistinct(h: seq<nat>, leaves: set<nat>, elems: nat, merges: seq<(nat, nat)>, j: nat, j': nat)
    requires TailOrder(h, merges) && History(leaves, elems, merges)
    requires HEAP_SIZE - 2 * |merges| <= j < j' < HEAP_SIZE
    ensures h[j] != h[j']
  {
    TailNode(h, merges, j);
    TailNode(h, merges, j');
    var i, i' := MergeOf(j), MergeOf(j');
    LiveStep(leaves, elems, merges, i);
    if i' < i {
      MergedIsGone(leaves, elems, merges, i', i);
    }
  }

  lemma TailPosition(h: seq<nat>, merges: seq<(nat, nat)>, m: nat, x: nat) returns (j: nat)
    requires TailOrder(h, merges) && m < |merges| && (merges[m].0 == x || merges[m].1 == x)
    ensures HEAP_SIZE - 2 * |merges| <= j < HEAP_SIZE && h[j] == x && MergeOf(j) == m
  {
    j := if merges[m].0 == x then HEAP_SIZE - 1 - 2 * m else HEAP_SIZE - 2 - 2 * m;
  }

  /** The father of a merged node comes earlier in the array. */
  lemma FatherBefore(h: seq<nat>, lo: nat, leaves: set<nat>, elems: nat, merges: seq<(nat, nat)>, j: nat)
    requires Finished(leaves, elems, merges) && TailOrder(h, merges)
    requires lo == HEAP_SIZE - 2 * |merges| - 1 && lo < j < HEAP_SIZE && h[lo] == elems + |merges| - 1
    ensures elems + MergeOf(j) in Visited(h, lo, j)
  {
    var i, k := MergeOf(j), |merges|;
    TailNode(h, merges, j);
    if i == k - 1 {
      assert h[lo] in Visited(h, lo, j);
    } else {
      RootAlone(leaves, elems, merges);
      LiveStep(leaves, elems, merges, i);
      var m := MergedSometime(leaves, elems, merges, elems + i, i + 1);
      var p := TailPosition(h, merges, m, elems + i);
      assert p < j;
      assert h[p] in Visited(h, lo, j);
    }
  }

  /** The nodes at the high end of the heap array are in order of decreasing frequency. */
  lemma TailDecreases(h: seq<nat>, lo: nat, leaves: set<nat>, elems: nat, merges: seq<(nat, nat)>, w: seq<nat>, j: nat)
    requires Finished(leaves, elems, merges) && TailOrder(h, merges) && WeightsAdd(w, elems, merges) && Greedy(leaves, w, elems, merges)
    requires lo == HEAP_SIZE - 2 * |merges| - 1 && lo <= j < HEAP_SIZE - 1 && h[lo] == elems + |merges| - 1
    ensures h[j] < |w| && h[j + 1] < |w| && w[h[j]] >= w[h[j + 1]]
  {
    hide Live;
    TailNode(h, merges, j + 1);
    var i := MergeOf(j + 1);
    assert TwoSmallest(Live(leaves, elems, merges, i), w, merges[i].0, merges[i].1);
    if j > lo {
      TailNode(h, merges, j);
      var k := MergeOf(j);
      if k != i {
        assert k == i + 1;
        LiveStep(leaves, elems, merges, i);
        LiveStep(leaves, elems, merges, k);
        assert TwoSmallest(Live(leaves, elems, merges, k), w, merges[k].0, merges[k].1);
      }
    }
  }

  lemma OrderFromHistory(h: seq<nat>, lo: nat, dad: seq<nat>, leaves: set<nat>, elems: nat, merges: seq<(nat, nat)>, maxCode: nat)
    requires Finished(leaves, elems, merges) && FathersUp(dad, elems, merges) && TailOrder(h, merges)
    requires lo == HEAP_SIZE - 2 * |merges| - 1 && h[lo] == elems + |merges| - 1
    requires maxCode < elems && forall x :: x in leaves ==> x <= maxCode
    ensures TreeOrder(h, lo, dad, elems + |merges| - 1, leaves, maxCode)
  {
    var k := |merges|;
    var root := elems + k - 1;
    forall j | lo < j < |h|
      ensures h[j] < root && h[j] < dad[h[j]] <= root && dad[h[j]] in Visited(h, lo, j)
      ensures h[j] <= maxCode <==> h[j] in leaves
    {
      TailNode(h, merges, j);
      FatherBefore(h, lo, leaves, elems, merges, j);
      LiveStep(leaves, elems, merges, MergeOf(j));
      if h[j] <= maxCode { LiveIsLeaf(leaves, elems, merges, MergeOf(j), h[j]); }
    }
    forall i, j | lo <= i < j < |h| ensures h[i] != h[j] {
      if i > lo { TailDistinct(h, leaves, elems, merges, i, j); }
    }
    forall x | x in leaves ensures x in Visited(h, lo, |h|) {
      RootAlone(leaves, elems, merges);
      var m := MergedSometime(leaves, elems, merges, x, 0);
      var p := TailPosition(h, merges, m, x);
      assert h[p] in Visited(h, lo, |h|);
    }
  }

  // ----- First pass: depths, counts and costs -----

  /** The constant part of `tree_desc`.  No static tree is an empty sequence. */
  datatype TreeDesc = TreeDesc(staticLens: seq<nat>, extraBits: seq<nat>, extraBase: nat, elems: nat, maxLength: nat) {
    predicate Valid() {
      && extraBase + |extraBits| == elems && elems >= 3 && (staticLens == [] || |staticLens| >= elems)
      && 1 <= maxLength <= MAX_BITS
      && Extra(0) == Extra(1) == Extra(2) == 0
    }

    function Extra(n: nat): nat {
      if extraBase <= n < extraBase + |extraBits| then extraBits[n - extraBase] else 0
    }

    function StaticLen(n: nat): nat {
      if n < |staticLens| then staticLens[n] else 0
    }
  }

  /** `freq` occurrences of `bits` bits each. */
  function Bill(freq: nat, bits: nat): nat {
    freq * bits
  }

  /** 1 for every node whose length is l. */
  ghost function Ind(lens: seq<nat>, l: nat): (r: seq<int>)
    ensures |r| == |lens|
  {
    seq(|lens|, i requires 0 <= i < |lens| => if lens[i] == l then 1 else 0)
  }

  /** Bits sent for each symbol, with its extra bits. */
  ghost function DynCosts(desc: TreeDesc, f: seq<nat>, lens: seq<nat>): (r: seq<int>)
    requires |f| == |lens|
    ensures |r| == |f|
  {
    seq(|f|, i requires 0 <= i < |f| => Bill(f[i], lens[i] + desc.Extra(i)))
  }

  /** The same with the lengths of the static tree. */
  ghost function StatCosts(desc: TreeDesc, f: seq<nat>): (r: seq<int>)
    ensures |r| == |f|
  {
    seq(|f|, i requires 0 <= i < |f| => if desc.staticLens == [] then 0 else Bill(f[i], desc.StaticLen(i) + desc.Extra(i)))
  }

  /** Counts and costs accumulated over the symbols of `done`; o and st are the exact values
      the two 32-bit totals started from. */
  ghost predicate Tally(done: set<nat>, desc: TreeDesc, f: seq<nat>, lens: seq<nat>, bl: seq<nat>, o: int, st: int, opt: nat, stat: nat) {
    && |f| == |lens| && |bl| == MAX_BITS + 1
    && (forall l :: 0 <= l <= MAX_BITS ==> bl[l] == Sum(done, Ind(lens, l)))
    && opt == Wrap32(o + Sum(done, DynCosts(desc, f, lens)))
    && stat == Wrap32(st + Sum(done, StatCosts(desc, f)))
  }

  lemma TallyStart(desc: TreeDesc, f: seq<nat>, lens: seq<nat>, bl: seq<nat>, o: int, st: int, opt: nat, stat: nat)
    requires |f| == |lens| && bl == seq(MAX_BITS + 1, _ => 0) && opt == Wrap32(o) && stat == Wrap32(st)
    ensures Tally({}, desc, f, lens, bl, o, st, opt, stat)
  {
    hide Sum;
    SumEmpty(DynCosts(desc, f, lens));
    SumEmpty(StatCosts(desc, f));
    forall l | 0 <= l <= MAX_BITS ensures bl[l] == Sum({}, Ind(lens, l)) {
      SumEmpty(Ind(lens, l));
    }
  }

  lemma TallySizes(done: set<nat>, desc: TreeDesc, f: seq<nat>, lens: seq<nat>, bl: seq<nat>, o: int, st: int, opt: nat, stat: nat)
    requires Tally(done, desc, f, lens, bl, o, st, opt, stat)
    ensures |f| == |lens| && |bl| == MAX_BITS + 1
  {
  }

  /** One more symbol. */
  lemma TallyLeaf(done: set<nat>, desc: TreeDesc, f: seq<nat>, lens: seq<nat>, bl: seq<nat>, o: int, st: int, opt: nat, stat: nat, n: nat)
    requires Tally(done, desc, f, lens, bl, o, st, opt, stat) && n < |f| && n !in done && lens[n] <= MAX_BITS
    ensures Tally(done + {n}, desc, f, lens, bl[lens[n] := bl[lens[n]] + 1], o, st,
                  Wrap32(opt + Bill(f[n], lens[n] + desc.Extra(n))),
                  if desc.staticLens == [] then stat else Wrap32(stat + Bill(f[n], desc.StaticLen(n) + desc.Extra(n))))
  {
    hide Sum, Wrap32, Bill;
    SumInsert(done, n, DynCosts(desc, f, lens));
    WrapAdd(o + Sum(done, DynCosts(desc, f, lens)), Bill(f[n], lens[n] + desc.Extra(n)));
    SumInsert(done, n, StatCosts(desc, f));
    WrapAdd(st + Sum(done, StatCosts(desc, f)), Bill(f[n], desc.StaticLen(n) + desc.Extra(n)));
    var bl' := bl[lens[n] := bl[lens[n]] + 1];
    forall l | 0 <= l <= MAX_BITS ensures bl'[l] == Sum(done + {n}, Ind(lens, l)) {
      SumInsert(done, n, Ind(lens, l));
    }
  }

  /** After visiting positions lo..t-1 their nodes hold lengths; all others still hold fathers. */
  ghost predicate LensUpTo(dl: seq<nat>, h: seq<nat>, lo: nat, t: nat, dad: seq<nat>, lens: seq<nat>) {
    && |dl| == |dad| == |lens| && lo < t <= |h|
    && forall x :: 0 <= x < |dad| ==> dl[x] == if x in Visited(h, lo, t) then lens[x] else dad[x]
  }

  /** Positions lo+1..t-1 whose father is at the depth limit. */
  ghost function OverCount(h: seq<nat>, lo: nat, t: nat, dad: seq<nat>, lens: seq<nat>, max: nat): nat
    requires lo < t <= |h|
  {
    if t == lo + 1 then 0
    else OverCount(h, lo, t - 1, dad, lens, max) + if Over(h[t - 1], dad, lens, max) then 1 else 0
  }

  ghost predicate Over(n: nat, dad: seq<nat>, lens: seq<nat>, max: nat) {
    n < |dad| && dad[n] < |lens| && lens[dad[n]] + 1 > max
  }

  /** The visited part grows by one node, whose length follows from its father's. */
  lemma LensStep(dl: seq<nat>, h: seq<nat>, lo: nat, t: nat, dad: seq<nat>, root: nat, max: nat, leaves: set<nat>, maxCode: nat)
    requires TreeOrder(h, lo, dad, root, leaves, maxCode) && t < |h|
    requires LensUpTo(dl, h, lo, t, dad, Depths(dad, root, max))
    ensures var n, lens := h[t], Depths(dad, root, max);
            && n < |dl| == |dad| && dl[n] == dad[n] && dad[n] < |dl| && dl[dad[n]] == lens[dad[n]]
            && lens[n] == (if lens[dad[n]] + 1 > max then max else lens[dad[n]] + 1)
            && LensUpTo(dl[n := lens[n]], h, lo, t + 1, dad, lens)
            && n !in Visited(h, lo, t) && (n <= maxCode <==> n in leaves)
            && Visited(h, lo, t + 1) == Visited(h, lo, t) + {n}
  {
    var n, lens := h[t], Depths(dad, root, max);
    assert lens[n] == if lens[dad[n]] + 1 > max then max else lens[dad[n]] + 1;
    VisitedGrows(h, lo, t);
    hide Visited, Depths, Depth;
    assert LensUpTo(dl[n := lens[n]], h, lo, t + 1, dad, lens);
  }

  lemma VisitedGrows(h: seq<nat>, lo: nat, t: nat)
    requires lo <= t < |h| && forall i :: lo <= i < t ==> h[i] != h[t]
    ensures Visited(h, lo, t + 1) == Visited(h, lo, t) + {h[t]} && h[t] !in Visited(h, lo, t)
  {
  }

  lemma LensStart(dad: seq<nat>, h: seq<nat>, lo: nat, root: nat, max: nat)
    requires lo < |h| && h[lo] == root < |dad|
    ensures LensUpTo(dad[root := 0], h, lo, lo + 1, dad, Depths(dad, root, max))
  {
    assert Visited(h, lo, lo + 1) == {root};
  }

  /** What the first pass changes: the overlaid lengths, the counts, the number of nodes over
      the limit and the two cost totals. */
  datatype Acc = Acc(dl: seq<nat>, bl: seq<nat>, overflow: nat, opt: nat, stat: nat)

  ghost predicate CanVisit(n: nat, a: Acc, f: seq<nat>, desc: TreeDesc, maxCode: nat) {
    n < |a.dl| && a.dl[n] < |a.dl| && (n <= maxCode ==> n < |f|) && |a.bl| == MAX_BITS + 1 && desc.maxLength <= MAX_BITS
  }

  /** Visiting one node: its length, and for a symbol the counts and costs. */
  ghost function Visit(n: nat, a: Acc, f: seq<nat>, desc: TreeDesc, maxCode: nat): Acc
    requires CanVisit(n, a, f, desc, maxCode)
  {
    var d := a.dl[a.dl[n]] + 1;
    var over := d > desc.maxLength;
    var bits := if over then desc.maxLength else d;
    var a' := a.(dl := a.dl[n := bits], overflow := if over then a.overflow + 1 else a.overflow);
    if n > maxCode then a'
    else
      a'.(bl := a.bl[bits := a.bl[bits] + 1],
          opt := Wrap32(a.opt + Bill(f[n], bits + desc.Extra(n))),
          stat := if desc.staticLens == [] then a.stat else Wrap32(a.stat + Bill(f[n], desc.StaticLen(n) + desc.Extra(n))))
  }

  /** State of the first pass before position t. */
  ghost predicate Passing(h: seq<nat>, lo: nat, t: nat, dad: seq<nat>, lens: seq<nat>, leaves: set<nat>, desc: TreeDesc, f: seq<nat>,
                          a: Acc, o: int, st: int) {
    && LensUpTo(a.dl, h, lo, t, dad, lens)
    && Tally(leaves * Visited(h, lo, t), desc, f, lens, a.bl, o, st, a.opt, a.stat)
    && a.overflow == OverCount(h, lo, t, dad, lens, desc.maxLength)
  }

  lemma PassingStart(h: seq<nat>, lo: nat, dad: seq<nat>, root: nat, leaves: set<nat>, maxCode: nat, desc: TreeDesc, f: seq<nat>,
                     bl: seq<nat>, o: int, st: int, opt: nat, stat: nat)
    requires TreeOrder(h, lo, dad, root, leaves, maxCode) && |f| == |dad|
    requires bl == seq(MAX_BITS + 1, _ => 0) && opt == Wrap32(o) && stat == Wrap32(st)
    ensures Passing(h, lo, lo + 1, dad, Depths(dad, root, desc.maxLength), leaves, desc, f, Acc(dad[root := 0], bl, 0, opt, stat), o, st)
  {
    var lens := Depths(dad, root, desc.maxLength);
    LensStart(dad, h, lo, root, desc.maxLength);
    TallyStart(desc, f, lens, bl, o, st, opt, stat);
    assert leaves * Visited(h, lo, lo + 1) == {} by {
      assert Visited(h, lo, lo + 1) == {root};
    }
  }

  lemma PassingStep(h: seq<nat>, lo: nat, t: nat, dad: seq<nat>, root: nat, leaves: set<nat>, maxCode: nat, desc: TreeDesc, f: seq<nat>,
                    a: Acc, o: int, st: int)
    requires desc.Valid() && TreeOrder(h, lo, dad, root, leaves, maxCode) && lo < t < |h| && maxCode < |f| == |dad|
    requires Passing(h, lo, t, dad, Depths(dad, root, desc.maxLength), leaves, desc, f, a, o, st)
    ensures CanVisit(h[t], a, f, desc, maxCode)
    ensures Passing(h, lo, t + 1, dad, Depths(dad, root, desc.maxLength), leaves, desc, f, Visit(h[t], a, f, desc, maxCode), o, st)
  {
    hide Wrap32, Bill, Tally, Depths, LensUpTo, TreeDesc.Extra, TreeDesc.StaticLen, TreeOrder, Visited;
    var n, lens, done := h[t], Depths(dad, root, desc.maxLength), leaves * Visited(h, lo, t);
    TallySizes(done, desc, f, lens, a.bl, o, st, a.opt, a.stat);
    LensStep(a.dl, h, lo, t, dad, root, desc.maxLength, leaves, maxCode);
    if n <= maxCode {
      TallyLeaf(done, desc, f, lens, a.bl, o, st, a.opt, a.stat, n);
      assert leaves * Visited(h, lo, t + 1) == done + {n};
    } else {
      assert leaves * Visited(h, lo, t + 1) == done;
    }
  }

  method ClearCounts(blCount: array<nat>)
    modifies blCount
    ensures blCount[..] == seq(blCount.Length, _ => 0)
  {
    for i := 0 to blCount.Length
      invariant forall l :: 0 <= l < i ==> blCount[l] == 0
    {
      blCount[i] := 0;
    }
  }

  method VisitNode(n: nat, fc: array<nat>, dl: array<nat>, blCount: array<nat>, desc: TreeDesc, maxCode: nat,
                   overflow: nat, optLen: nat, staticLen: nat)
    returns (overflow': nat, optLen': nat, staticLen': nat)
    requires fc != dl && fc != blCount && dl != blCount
    requires CanVisit(n, Acc(dl[..], blCount[..], overflow, optLen, staticLen), fc[..], desc, maxCode)
    modifies dl, blCount
    ensures Acc(dl[..], blCount[..], overflow', optLen', staticLen')
         == Visit(n, old(Acc(dl[..], blCount[..], overflow, optLen, staticLen)), fc[..], desc, maxCode)
  {
    hide Wrap32, Bill, TreeDesc.Extra, TreeDesc.StaticLen;
    var bits := dl[dl[n]] + 1;
    overflow', optLen', staticLen' := overflow, optLen, staticLen;
    if bits > desc.maxLength {
      bits := desc.maxLength;
      overflow' := overflow + 1;
    }
    dl[n] := bits;
    if n > maxCode {
      return;
    }
    blCount[bits] := blCount[bits] + 1;
    var xbits := desc.Extra(n);
    optLen' := Wrap32(optLen + Bill(fc[n], bits + xbits));
    if desc.staticLens != [] {
      staticLen' := Wrap32(staticLen + Bill(fc[n], desc.StaticLen(n) + xbits));
    }
  }

  /** The first pass: depths cut off at the limit, length counts, costs, and how many nodes
      went over the limit. */
  method FirstPass(heap: array<nat>, heapMax: nat, fc: array<nat>, dl: array<nat>, blCount: array<nat>, desc: TreeDesc, maxCode: nat,
                   optLen: nat, staticLen: nat, ghost root: nat, ghost leaves: set<nat>, ghost o: int, ghost st: int)
    returns (overflow: nat, optLen': nat, staticLen': nat)
    requires heap != dl && heap != blCount && fc != dl && fc != blCount && dl != blCount
    requires desc.Valid() && maxCode < desc.elems && fc.Length == dl.Length && blCount.Length == MAX_BITS + 1
    requires TreeOrder(heap[..], heapMax, dl[..], root, leaves, maxCode)
    requires optLen == Wrap32(o) && staticLen == Wrap32(st)
    modifies dl, blCount
    ensures Passing(heap[..], heapMax, heap.Length, old(dl[..]), Depths(old(dl[..]), root, desc.maxLength), leaves, desc, fc[..],
                    Acc(dl[..], blCount[..], overflow, optLen', staticLen'), o, st)
  {
    assert heap[heapMax] == root < dl.Length && maxCode < dl.Length && heapMax < heap.Length;
    hide Wrap32, Passing, Visit, CanVisit, Depths, TreeOrder;
    ghost var h: seq<nat>, dad: seq<nat>, f: seq<nat> := heap[..], dl[..], fc[..];
    ghost var lens := Depths(dad, root, desc.maxLength);
    ClearCounts(blCount);
    PassingStart(h, heapMax, dad, root, leaves, maxCode, desc, f, blCount[..], o, st, optLen, staticLen);
    dl[heap[heapMax]] := 0;
    assert dl[..] == dad[root := 0];
    overflow, optLen', staticLen' := 0, optLen, staticLen;
    for t := heapMax + 1 to heap.Length
      invariant heap[..] == h && fc[..] == f
      invariant Passing(h, heapMax, t, dad, lens, leaves, desc, f, Acc(dl[..], blCount[..], overflow, optLen', staticLen'), o, st)
    {
      PassingStep(h, heapMax, t, dad, root, leaves, maxCode, desc, f, Acc(dl[..], blCount[..], overflow, optLen', staticLen'), o, st);
      overflow, optLen', staticLen' := VisitNode(heap[t], fc, dl, blCount, desc, maxCode, overflow, optLen', staticLen');
    }
  }
}
