/** Building the Huffman tree: repeated merging of the two least frequent nodes, with the
    merged nodes collected at the high end of the heap array. */
module TreeMerge {
  import opened Bits
  import opened Sums
  import opened Huffman
  import opened Heap
  import opened Heights

  const HEAP_SIZE: nat := 573

  /** The heap holds exactly the nodes of `live`, in heap order. */
  ghost predicate Queue(h: seq<nat>, len: nat, live: set<nat>, f: seq<nat>, d: seq<nat>) {
    Nodes(h, len, f, d) && HeapFrom(h, len, f, d, 1) && multiset(h[1..len + 1]) == multiset(live)
  }

  lemma {:induction false} TopSmaller(h: seq<nat>, len: nat, f: seq<nat>, d: seq<nat>, i: nat)
    requires Nodes(h, len, f, d) && HeapFrom(h, len, f, d, 1) && 1 <= i <= len
    ensures Smaller(f, d, h[1], h[i])
  {
    if i > 1 { TopSmaller(h, len, f, d, i / 2); }
  }

  lemma MemberIndex(h: seq<nat>, len: nat, live: set<nat>, x: nat) returns (i: nat)
    requires len < |h| && multiset(h[1..len + 1]) == multiset(live) && x in live
    ensures 1 <= i <= len && h[i] == x
  {
    assert x in multiset(h[1..len + 1]);
    var k :| 0 <= k < |h[1..len + 1]| && h[1..len + 1][k] == x;
    i := k + 1;
  }

  lemma TopIsLeast(h: seq<nat>, len: nat, live: set<nat>, f: seq<nat>, d: seq<nat>)
    requires Queue(h, len, live, f, d) && len >= 1
    ensures First(live, f, d, h[1]) && |live| == len
  {
    forall x | x in live ensures Smaller(f, d, h[1], x) {
      var i := MemberIndex(h, len, live, x);
      TopSmaller(h, len, f, d, i);
    }
    assert h[1..len + 1][0] in multiset(h[1..len + 1]);
    assert |multiset(live)| == |multiset(h[1..len + 1])|;
    CardSet(live);
  }

  lemma {:induction false} CardSet(s: set<nat>)
    ensures |multiset(s)| == |s|
  {
    if x :| x in s {
      CardSet(s - {x});
      assert multiset(s) == multiset(s - {x}) + multiset{x};
    }
  }

  /** Taking the top off and moving the last entry there. */
  lemma DropTop(h: seq<nat>, len: nat, live: set<nat>)
    requires 1 <= len < |h| && multiset(h[1..len + 1]) == multiset(live)
    ensures h[1] in live && multiset(h[1 := h[len]][1..len]) == multiset(live - {h[1]})
  {
    var s := h[1..len + 1];
    assert h[1] == s[0] && s[0] in multiset(s);
    assert h[1 := h[len]][1..len] == s[0 := s[len - 1]][..len - 1];
    MoveLast(s);
    assert multiset(live - {h[1]}) == multiset(live) - multiset{h[1]};
  }

  lemma MoveLast(s: seq<nat>)
    requires s != []
    ensures multiset(s) == multiset{s[0]} + multiset(s[0 := s[|s| - 1]][..|s| - 1])
  {
    var n := |s| - 1;
    var t := s[0 := s[n]][..n];
    if n > 0 {
      var mid := s[1..n];
      assert s == [s[0]] + (mid + [s[n]]);
      assert t == [s[n]] + mid;
      assert multiset(mid + [s[n]]) == multiset(t);
    } else {
      assert s == [s[0]] && t == [];
    }
  }

  lemma ReplaceTop(h: seq<nat>, len: nat, live: set<nat>, node: nat)
    requires 1 <= len < |h| && multiset(h[1..len + 1]) == multiset(live) && node !in live
    ensures multiset(h[1 := node][1..len + 1]) == multiset(live - {h[1]} + {node})
  {
    var s, t := h[1..len + 1], h[1 := node][1..len + 1];
    assert s == [h[1]] + s[1..] && t == [node] + s[1..];
    assert h[1] in multiset(s);
    assert multiset(live - {h[1]} + {node}) == multiset(live) - multiset{h[1]} + multiset{node};
  }

  /** Heap order below the top does not involve the top entry. */
  lemma TopFree(h: seq<nat>, len: nat, f: seq<nat>, d: seq<nat>, v: nat, len': nat)
    requires Nodes(h, len, f, d) && HeapFrom(h, len, f, d, 1) && v < |f| && len' <= len && len >= 1
    ensures Nodes(h[1 := v], len', f, d) && HeapFrom(h[1 := v], len', f, d, 2)
  {
  }

  /** `PQREMOVE`: removes the smallest node. */
  method PqRemove(heap: array<nat>, heapLen: nat, fc: array<nat>, depth: array<nat>, ghost live: set<nat>) returns (top: nat)
    requires heap != fc && heap != depth && 2 <= heapLen < heap.Length
    requires Queue(heap[..], heapLen, live, fc[..], depth[..])
    modifies heap
    ensures First(live, fc[..], depth[..], top) && |live| == heapLen
    ensures Queue(heap[..], heapLen - 1, live - {top}, fc[..], depth[..])
    ensures SameOutside(old(heap[..]), heap[..], 1, heapLen)
  {
    ghost var f: seq<nat>, d: seq<nat>, h: seq<nat> := fc[..], depth[..], heap[..];
    top := heap[1];
    TopIsLeast(h, heapLen, live, f, d);
    DropTop(h, heapLen, live);
    TopFree(h, heapLen, f, d, h[heapLen], heapLen - 1);
    hide HeapFrom, First;
    heap[1] := heap[heapLen];
    assert heap[..] == h[1 := h[heapLen]];
    PqDownHeap(heap, heapLen - 1, fc, depth, 1);
    EntriesAreNodes(heap[..], heapLen - 1, live - {top}, f, d);
  }

  lemma EntriesAreNodes(h: seq<nat>, len: nat, live: set<nat>, f: seq<nat>, d: seq<nat>)
    requires len < |h| && |f| <= |d| && multiset(h[1..len + 1]) == multiset(live) && forall x :: x in live ==> x < |f|
    ensures Nodes(h, len, f, d)
  {
    forall i | 1 <= i <= len ensures h[i] < |f| {
      assert h[1..len + 1][i - 1] in multiset(h[1..len + 1]);
      assert h[i] in live;
    }
  }

  // ----- Merging -----

  /** Facts about the merges done so far: frequencies `f` and fathers `dl`. */
  ghost predicate Merged(leaves: set<nat>, elems: nat, merges: seq<(nat, nat)>, f: seq<nat>, dl: seq<nat>, total: nat) {
    && History(leaves, elems, merges) && |merges| < |leaves|
    && |f| == |dl| && elems + |leaves| <= |f|
    && WeightsAdd(f, elems, merges) && Greedy(leaves, f, elems, merges) && FathersUp(dl, elems, merges)
    && Sum(Live(leaves, elems, merges, |merges|), f) == total
  }

  /** The two nodes of merge i lie at this place at the high end of the heap array. */
  ghost predicate TailOrder(h: seq<nat>, merges: seq<(nat, nat)>) {
    && |h| == HEAP_SIZE && 2 * |merges| <= HEAP_SIZE
    && forall i :: 0 <= i < |merges| ==>
         h[HEAP_SIZE - 1 - 2 * i] == merges[i].0 && h[HEAP_SIZE - 2 - 2 * i] == merges[i].1
  }

  lemma {:induction false} LivePrefix(leaves: set<nat>, elems: nat, merges: seq<(nat, nat)>, p: (nat, nat), i: nat)
    requires i <= |merges|
    ensures Live(leaves, elems, merges + [p], i) == Live(leaves, elems, merges, i)
  {
    if i > 0 { LivePrefix(leaves, elems, merges, p, i - 1); }
  }

  lemma LivePrefixAll(leaves: set<nat>, elems: nat, merges: seq<(nat, nat)>, p: (nat, nat))
    ensures forall i :: 0 <= i <= |merges| ==> Live(leaves, elems, merges + [p], i) == Live(leaves, elems, merges, i)
  {
    forall i | 0 <= i <= |merges| ensures Live(leaves, elems, merges + [p], i) == Live(leaves, elems, merges, i) {
      LivePrefix(leaves, elems, merges, p, i);
    }
  }

  /** A merged node is not live any more. */
  lemma {:induction false} MergedIsGone(leaves: set<nat>, elems: nat, merges: seq<(nat, nat)>, i: nat, j: nat)
    requires History(leaves, elems, merges) && i < j <= |merges|
    ensures merges[i].0 !in Live(leaves, elems, merges, j) && merges[i].1 !in Live(leaves, elems, merges, j)
  {
    LiveStep(leaves, elems, merges, i);
    LiveBelow(leaves, elems, merges, i);
    if i + 1 < j {
      MergedIsGone(leaves, elems, merges, i, j - 1);
      LiveStep(leaves, elems, merges, j - 1);
    }
  }

  lemma HistoryGrows(leaves: set<nat>, elems: nat, merges: seq<(nat, nat)>, a: nat, b: nat)
    requires History(leaves, elems, merges) && a != b
    requires a in Live(leaves, elems, merges, |merges|) && b in Live(leaves, elems, merges, |merges|)
    ensures History(leaves, elems, merges + [(a, b)])
    ensures Live(leaves, elems, merges + [(a, b)], |merges| + 1)
         == Live(leaves, elems, merges, |merges|) - {a, b} + {elems + |merges|}
  {
    LivePrefixAll(leaves, elems, merges, (a, b));
    var merges' := merges + [(a, b)];
    forall i | 0 <= i < |merges'| ensures MergeAt(leaves, elems, merges', i) {
      if i < |merges| { assert MergeAt(leaves, elems, merges, i); }
    }
  }

  lemma WeightsGrow(elems: nat, merges: seq<(nat, nat)>, f: seq<nat>, a: nat, b: nat)
    requires WeightsAdd(f, elems, merges) && elems + |merges| < |f| && a < elems + |merges| && b < elems + |merges|
    requires forall i :: 0 <= i < |merges| ==> merges[i].0 < elems + i && merges[i].1 < elems + i
    ensures WeightsAdd(f[elems + |merges| := f[a] + f[b]], elems, merges + [(a, b)])
  {
  }

  lemma GreedyGrows(leaves: set<nat>, elems: nat, merges: seq<(nat, nat)>, f: seq<nat>, v: nat, a: nat, b: nat)
    requires History(leaves, elems, merges) && Greedy(leaves, f, elems, merges) && elems + |merges| < |f|
    requires TwoSmallest(Live(leaves, elems, merges, |merges|), f, a, b)
    ensures Greedy(leaves, f[elems + |merges| := v], elems, merges + [(a, b)])
  {
    hide Live, TwoSmallest, History;
    var k := |merges|;
    var f', merges' := f[elems + k := v], merges + [(a, b)];
    forall i | 0 <= i < |merges'|
      ensures TwoSmallest(Live(leaves, elems, merges', i), f', merges'[i].0, merges'[i].1)
    {
      LivePrefix(leaves, elems, merges, (a, b), i);
      LiveBelow(leaves, elems, merges, i);
      SmallestFrame(Live(leaves, elems, merges, i), f, f', merges'[i].0, merges'[i].1, elems + k);
    }
  }

  lemma SmallestFrame(s: set<nat>, f: seq<nat>, f': seq<nat>, a: nat, b: nat, bound: nat)
    requires TwoSmallest(s, f, a, b) && |f| == |f'| && bound <= |f|
    requires forall x :: x in s ==> x < bound
    requires forall x :: 0 <= x < bound ==> f[x] == f'[x]
    ensures TwoSmallest(s, f', a, b)
  {
  }

  lemma FathersGrow(leaves: set<nat>, elems: nat, merges: seq<(nat, nat)>, dl: seq<nat>, a: nat, b: nat)
    requires History(leaves, elems, merges) && FathersUp(dl, elems, merges) && elems + |merges| < |dl|
    requires a in Live(leaves, elems, merges, |merges|) && b in Live(leaves, elems, merges, |merges|)
    requires a < |dl| && b < |dl|
    ensures FathersUp(dl[a := elems + |merges|][b := elems + |merges|], elems, merges + [(a, b)])
  {
    var k := |merges|;
    LiveBelow(leaves, elems, merges, k);
    forall i | 0 <= i < k
      ensures merges[i].0 != a && merges[i].0 != b && merges[i].1 != a && merges[i].1 != b
    {
      MergedIsGone(leaves, elems, merges, i, k);
    }
  }

  /** One merge of the two least nodes keeps everything known about the history. */
  lemma MergedGrows(leaves: set<nat>, elems: nat, merges: seq<(nat, nat)>, f: seq<nat>, dl: seq<nat>, d: seq<nat>, total: nat, a: nat, b: nat)
    requires Merged(leaves, elems, merges, f, dl, total) && |merges| + 1 < |leaves|
    requires FirstTwo(Live(leaves, elems, merges, |merges|), f, d, a, b)
    ensures a < |f| && b < |f| && elems + |merges| < |f| && a != b && f[a] + f[b] <= total
    ensures Merged(leaves, elems, merges + [(a, b)], f[elems + |merges| := f[a] + f[b]],
                   dl[a := elems + |merges|][b := elems + |merges|], total)
  {
    hide Live, Sum, History, WeightsAdd, Greedy, TwoSmallest;
    var k := |merges|;
    var live := Live(leaves, elems, merges, k);
    LiveBelow(leaves, elems, merges, k);
    FirstAreSmallest(live, f, d, a, b);
    HistoryGrows(leaves, elems, merges, a, b);
    WeightsGrow(elems, merges, f, a, b);
    GreedyGrows(leaves, elems, merges, f, f[a] + f[b], a, b);
    FathersGrow(leaves, elems, merges, dl, a, b);
    hide FathersUp;
    TotalKept(live, f, a, b, elems + k);
  }

  lemma FirstAreSmallest(live: set<nat>, f: seq<nat>, d: seq<nat>, a: nat, b: nat)
    requires FirstTwo(live, f, d, a, b)
    ensures TwoSmallest(live, f, a, b) && a < |d| && b < |d|
  {
    forall x | x in live && x != a ensures f[b] <= f[x] {
      assert x in live - {a};
    }
  }

  lemma TotalKept(live: set<nat>, f: seq<nat>, a: nat, b: nat, node: nat)
    requires a in live && b in live && a != b && node !in live && a < |f| && b < |f| && node < |f|
    ensures Sum(live - {a, b} + {node}, f[node := f[a] + f[b]]) == Sum(live, f)
    ensures f[a] + f[b] <= Sum(live, f)
  {
    hide Sum;
    var f' := f[node := f[a] + f[b]];
    SumIgnores(live, f, f', node);
    Fold(live, f', a, b, node);
    SumRemove(live, a, f);
    SumRemove(live - {a}, b, f);
    SumNonNeg(live - {a} - {b}, f);
  }

  /** A queue does not depend on entries above its length nor on nodes it does not hold. */
  lemma QueueFrame(h: seq<nat>, h': seq<nat>, len: nat, live: set<nat>, f: seq<nat>, d: seq<nat>, f': seq<nat>, d': seq<nat>)
    requires Queue(h, len, live, f, d) && |h| == |h'| && |f| == |f'| && |d| == |d'|
    requires forall i :: 1 <= i <= len ==> h'[i] == h[i]
    requires forall x :: x in live && x < |f| ==> f'[x] == f[x] && d'[x] == d[x]
    ensures Queue(h', len, live, f', d')
  {
    assert h[1..len + 1] == h'[1..len + 1];
    forall i | 1 <= i <= len ensures h[i] in live {
      assert h[1..len + 1][i - 1] in multiset(h[1..len + 1]);
    }
    forall i | 2 <= i <= len ensures Smaller(f', d', h'[i / 2], h'[i]) {
      assert Smaller(f, d, h[i / 2], h[i]);
    }
  }

  lemma TailGrows(h: seq<nat>, merges: seq<(nat, nat)>, a: nat, b: nat)
    requires TailOrder(h, merges) && 2 * |merges| + 2 <= HEAP_SIZE
    ensures TailOrder(h[HEAP_SIZE - 1 - 2 * |merges| := a][HEAP_SIZE - 2 - 2 * |merges| := b], merges + [(a, b)])
  {
  }

  lemma TailFrame(h: seq<nat>, h': seq<nat>, merges: seq<(nat, nat)>, len: nat)
    requires TailOrder(h, merges) && SameOutside(h, h', 1, len) && len + 2 * |merges| < HEAP_SIZE
    ensures TailOrder(h', merges)
  {
  }

  /** Putting the new node at the top of the queue, before sifting it down. */
  lemma NewTop(h: seq<nat>, len: nat, live: set<nat>, f: seq<nat>, d: seq<nat>, node: nat, v: nat, e: nat)
    requires Queue(h, len, live, f, d) && len >= 1 && node < |f| && node !in live
    ensures Nodes(h[1 := node], len, f[node := v], d[node := e])
    ensures HeapFrom(h[1 := node], len, f[node := v], d[node := e], 2)
    ensures multiset(h[1 := node][1..len + 1]) == multiset(live - {h[1]} + {node})
  {
    QueueFrame(h, h, len, live, f, d, f[node := v], d[node := e]);
    TopFree(h, len, f[node := v], d[node := e], node, len);
    ReplaceTop(h, len, live, node);
  }

  /** The state between merges. */
  ghost predicate Merging(h: seq<nat>, len: nat, leaves: set<nat>, elems: nat, merges: seq<(nat, nat)>,
                          f: seq<nat>, dl: seq<nat>, d: seq<nat>, total: nat)
  {
    && Merged(leaves, elems, merges, f, dl, total) && total < TWO16
    && 2 * |leaves| < HEAP_SIZE && len == |leaves| - |merges|
    && Queue(h, len, Live(leaves, elems, merges, |merges|), f, d)
    && TailOrder(h, merges)
    && Balanced(leaves, f, d, elems, merges) && Weighty(leaves, f)
  }

  /** Every leaf occurs. */
  ghost predicate Weighty(leaves: set<nat>, f: seq<nat>) {
    forall x :: x in leaves ==> x < |f| && f[x] >= 1
  }

  /** The new node joins the queue in place of the second least one. */
  method PqJoin(heap: array<nat>, heapLen: nat, heapMax: nat, fc: array<nat>, depth: array<nat>, node: nat, n: nat, ghost live: set<nat>)
    returns (m: nat)
    requires heap != fc && heap != depth && fc != depth && 1 <= heapLen < heapMax - 2 && heapMax <= heap.Length
    requires fc.Length <= depth.Length
    requires Queue(heap[..], heapLen, live, fc[..], depth[..])
    requires n < fc.Length && node < fc.Length && node !in live
    modifies heap, fc, depth
    ensures First(live, old(fc[..]), old(depth[..]), m) && fc[..] == old(fc[..])[node := Wrap16(old(fc[n]) + old(fc[m]))]
    ensures depth[..] == old(depth[..])[node := Wrap8(Higher(old(depth[n]), old(depth[m])) + 1)]
    ensures Queue(heap[..], heapLen, live - {m} + {node}, fc[..], depth[..])
    ensures SameOutside(old(heap[..])[heapMax - 1 := n][heapMax - 2 := m], heap[..], 1, heapLen)
  {
    hide HeapFrom, Wrap16, Wrap8, Smaller, SameOutside, Nodes;
    ghost var f: seq<nat>, d: seq<nat>, h: seq<nat> := fc[..], depth[..], heap[..];
    m := heap[1];
    TopIsLeast(h, heapLen, live, f, d);
    FirstInRange(live, f, d, m);
    NodesFit(h, heapLen, f, d);
    hide First, Queue;
    heap[heapMax - 1] := n;
    heap[heapMax - 2] := m;
    ghost var h' := h[heapMax - 1 := n][heapMax - 2 := m];
    assert heap[..] == h';
    QueueFrame(h, h', heapLen, live, f, d, f, d);
    PqReplace(heap, heapLen, fc, depth, node, Wrap16(fc[n] + fc[m]), Wrap8(Higher(depth[n], depth[m]) + 1), live);
  }

  /** Puts the new node at the top of the heap and lets it sink. */
  method PqReplace(heap: array<nat>, heapLen: nat, fc: array<nat>, depth: array<nat>, node: nat, v: nat, e: nat, ghost live: set<nat>)
    requires heap != fc && heap != depth && fc != depth && 1 <= heapLen < heap.Length && fc.Length <= depth.Length
    requires Queue(heap[..], heapLen, live, fc[..], depth[..]) && node < fc.Length && node !in live
    requires forall x :: x in live ==> x < fc.Length
    modifies heap, fc, depth
    ensures fc[..] == old(fc[..])[node := v] && depth[..] == old(depth[..])[node := e]
    ensures Queue(heap[..], heapLen, live - {old(heap[1])} + {node}, fc[..], depth[..])
    ensures SameOutside(old(heap[..]), heap[..], 1, heapLen)
  {
    hide HeapFrom, Queue, SameOutside, Nodes;
    ghost var f: seq<nat>, d: seq<nat>, h: seq<nat> := fc[..], depth[..], heap[..];
    NewTop(h, heapLen, live, f, d, node, v, e);
    fc[node] := v;
    depth[node] := e;
    heap[1] := node;
    assert heap[..] == h[1 := node] && fc[..] == f[node := v] && depth[..] == d[node := e];
    PqDownHeap(heap, heapLen, fc, depth, 1);
    Requeue(h[1 := node], heap[..], heapLen, live - {h[1]} + {node}, fc[..], depth[..]);
    SameOutsideTop(h, heap[..], heapLen, node);
  }

  lemma FirstInRange(live: set<nat>, f: seq<nat>, d: seq<nat>, n: nat)
    requires First(live, f, d, n)
    ensures n in live && n < |f| && forall x :: x in live ==> x < |f|
  {
  }

  lemma NodesFit(h: seq<nat>, len: nat, f: seq<nat>, d: seq<nat>)
    requires Nodes(h, len, f, d)
    ensures len < |h| && |f| <= |d|
  {
  }

  lemma Requeue(h: seq<nat>, h': seq<nat>, len: nat, live: set<nat>, f: seq<nat>, d: seq<nat>)
    requires len < |h| == |h'| && |f| <= |d| && (forall x :: x in live ==> x < |f|)
    requires multiset(h[1..len + 1]) == multiset(live) && multiset(h'[1..len + 1]) == multiset(h[1..len + 1])
    requires HeapFrom(h', len, f, d, 1)
    ensures Queue(h', len, live, f, d)
  {
    EntriesAreNodes(h', len, live, f, d);
  }

  lemma SameOutsideTop(h: seq<nat>, h': seq<nat>, len: nat, v: nat)
    requires 1 <= len < |h| && SameOutside(h[1 := v], h', 1, len)
    ensures SameOutside(h, h', 1, len)
  {
  }

  /** Joins the two least frequent nodes under the new node elems + |merges|. */
  method MergeOnce(heap: array<nat>, heapLen: nat, fc: array<nat>, dl: array<nat>, depth: array<nat>, elems: nat, node: nat, heapMax: nat,
                   ghost leaves: set<nat>, ghost merges: seq<(nat, nat)>, ghost total: nat) returns (ghost merges': seq<(nat, nat)>)
    requires heap != fc && heap != dl && heap != depth && fc != dl && fc != depth && dl != depth
    requires heapLen >= 2 && node == elems + |merges| && heapMax == HEAP_SIZE - 2 * |merges|
    requires Merging(heap[..], heapLen, leaves, elems, merges, fc[..], dl[..], depth[..], total)
    modifies heap, fc, dl, depth
    ensures |merges'| == |merges| + 1
    ensures Merging(heap[..], heapLen - 1, leaves, elems, merges', fc[..], dl[..], depth[..], total)
    ensures forall x :: 0 <= x < elems && x < fc.Length ==> fc[x] == old(fc[x])
    ensures forall x :: 0 <= x < elems && x < dl.Length && x !in leaves ==> dl[x] == old(dl[x])
  {
    hide Queue, Merging, Wrap16, SameOutside, Live;
    ghost var f: seq<nat>, dls: seq<nat>, h: seq<nat>, d: seq<nat> := fc[..], dl[..], heap[..], depth[..];
    ghost var live := Live(leaves, elems, merges, |merges|);
    MergingBasics(h, heapLen, leaves, elems, merges, f, dls, d, total);
    var n := PqRemove(heap, heapLen, fc, depth, live);
    ghost var h1: seq<nat> := heap[..];
    var m := PqJoin(heap, heapLen - 1, heapMax, fc, depth, node, n, live - {n});
    merges' := merges + [(n, m)];
    MergingGrows(h, h1, heap[..], heapLen, leaves, elems, merges, f, dls, d, fc[..], depth[..], total, n, m);
    dl[n] := node;
    dl[m] := node;
    assert dl[..] == dls[n := node][m := node];
  }

  lemma MergingBasics(h: seq<nat>, len: nat, leaves: set<nat>, elems: nat, merges: seq<(nat, nat)>, f: seq<nat>, dl: seq<nat>, d: seq<nat>, total: nat)
    requires Merging(h, len, leaves, elems, merges, f, dl, d, total) && len >= 2
    ensures |h| == HEAP_SIZE && len + 2 * |merges| + 1 < HEAP_SIZE && |f| == |dl| <= |d| && |leaves| == len + |merges|
    ensures var live := Live(leaves, elems, merges, |merges|);
            Queue(h, len, live, f, d) && elems + |merges| < |f| && elems + |merges| !in live
  {
    hide Queue, Merged, Live;
    MergedBasics(leaves, elems, merges, f, dl, total);
    QueueSizes(h, len, Live(leaves, elems, merges, |merges|), f, d);
  }

  /** What one merge does to the whole state. */
  lemma MergingGrows(h: seq<nat>, h1: seq<nat>, h2: seq<nat>, len: nat, leaves: set<nat>, elems: nat, merges: seq<(nat, nat)>,
                     f: seq<nat>, dl: seq<nat>, d: seq<nat>, f2: seq<nat>, d2: seq<nat>, total: nat, n: nat, m: nat)
    requires Merging(h, len, leaves, elems, merges, f, dl, d, total) && len >= 2
    requires FirstTwo(Live(leaves, elems, merges, |merges|), f, d, n, m) && n < |d| && m < |d| && elems + |merges| < |d|
    requires SameOutside(h, h1, 1, len) && |h1| == HEAP_SIZE && 2 * |merges| + 2 <= HEAP_SIZE
    requires SameOutside(h1[HEAP_SIZE - 1 - 2 * |merges| := n][HEAP_SIZE - 2 - 2 * |merges| := m], h2, 1, len - 1)
    requires n < |f| && m < |f| && elems + |merges| < |f| == |dl| && f2 == f[elems + |merges| := Wrap16(f[n] + f[m])]
    requires d2 == d[elems + |merges| := Wrap8(Higher(d[n], d[m]) + 1)]
    requires Queue(h2, len - 1, Live(leaves, elems, merges, |merges|) - {n} - {m} + {elems + |merges|}, f2, d2)
    ensures Merging(h2, len - 1, leaves, elems, merges + [(n, m)], f2, dl[n := elems + |merges|][m := elems + |merges|], d2, total)
    ensures forall x :: 0 <= x < elems ==> f2[x] == f[x]
    ensures forall x :: 0 <= x < elems && x !in leaves ==> x != n && x != m
  {
    hide Queue, Merged, Wrap16, Wrap8, TailOrder, SameOutside, Balanced, FirstTwo;
    var k := |merges|;
    MergedBasics(leaves, elems, merges, f, dl, total);
    TailFrame(h, h1, merges, len);
    MergedGrows(leaves, elems, merges, f, dl, d, total, n, m);
    BalancedGrows(leaves, elems, merges, f, dl, d, total, f[n] + f[m], n, m);
    FirstAreSmallest(Live(leaves, elems, merges, k), f, d, n, m);
    HistoryGrows(leaves, elems, merges, n, m);
    TailGrows(h1, merges, n, m);
    TailFrame(h1[HEAP_SIZE - 1 - 2 * k := n][HEAP_SIZE - 2 - 2 * k := m], h2, merges + [(n, m)], len - 1);
    assert Live(leaves, elems, merges, k) - {n} - {m} + {elems + k} == Live(leaves, elems, merges + [(n, m)], k + 1);
    if n < elems { LiveIsLeaf(leaves, elems, merges, k, n); }
    if m < elems { LiveIsLeaf(leaves, elems, merges, k, m); }
  }

  /** The heights of the nodes fit a byte, because a higher tree would be too heavy. */
  lemma HeightFits(leaves: set<nat>, elems: nat, merges: seq<(nat, nat)>, f: seq<nat>, dl: seq<nat>, d: seq<nat>, total: nat, x: nat)
    requires Merged(leaves, elems, merges, f, dl, total) && Balanced(leaves, f, d, elems, merges) && Weighty(leaves, f)
    requires x in Live(leaves, elems, merges, |merges|) && total < TWO16
    ensures x < |d| && d[x] < 23
  {
    hide Live, Sum, Lightest, WeightsAdd, Greedy, FathersUp, History, HeightAt, Ordered;
    LiveIsHeavy(leaves, f, d, elems, merges, |merges|, x);
    var live := Live(leaves, elems, merges, |merges|);
    SumRemove(live, x, f);
    SumNonNeg(live - {x}, f);
    LightestBeyond16();
    if d[x] >= 23 { LightestGrows(23, d[x]); }
  }

  lemma BalancedGrows(leaves: set<nat>, elems: nat, merges: seq<(nat, nat)>, f: seq<nat>, dl: seq<nat>, d: seq<nat>, total: nat, v: nat, a: nat, b: nat)
    requires Merged(leaves, elems, merges, f, dl, total) && Balanced(leaves, f, d, elems, merges) && Weighty(leaves, f) && total < TWO16
    requires FirstTwo(Live(leaves, elems, merges, |merges|), f, d, a, b) && a < |d| && b < |d| && elems + |merges| < |f| && elems + |merges| < |d|
    ensures Balanced(leaves, f[elems + |merges| := v], d[elems + |merges| := Wrap8(Higher(d[a], d[b]) + 1)], elems, merges + [(a, b)])
    ensures Weighty(leaves, f[elems + |merges| := v])
  {
    hide Merged, Live, Ordered, HeightsAdd;
    MergedBasics(leaves, elems, merges, f, dl, total);
    HeightFits(leaves, elems, merges, f, dl, d, total, a);
    HeightFits(leaves, elems, merges, f, dl, d, total, b);
    OrderedGrows(leaves, elems, merges, f, d, v, Higher(d[a], d[b]) + 1, a, b);
    HeightsGrow(leaves, elems, merges, d, a, b);
  }

  lemma OrderedGrows(leaves: set<nat>, elems: nat, merges: seq<(nat, nat)>, f: seq<nat>, d: seq<nat>, v: nat, e: nat, a: nat, b: nat)
    requires History(leaves, elems, merges) && Ordered(leaves, f, d, elems, merges) && elems + |merges| < |f| && elems + |merges| < |d|
    requires FirstTwo(Live(leaves, elems, merges, |merges|), f, d, a, b)
    ensures Ordered(leaves, f[elems + |merges| := v], d[elems + |merges| := e], elems, merges + [(a, b)])
  {
    hide Live, FirstTwo, History;
    var k := |merges|;
    var f', d', merges' := f[elems + k := v], d[elems + k := e], merges + [(a, b)];
    forall i | 0 <= i < |merges'|
      ensures FirstTwo(Live(leaves, elems, merges', i), f', d', merges'[i].0, merges'[i].1)
    {
      LivePrefix(leaves, elems, merges, (a, b), i);
      LiveBelow(leaves, elems, merges, i);
      FirstFrame(Live(leaves, elems, merges, i), f, f', d, d', merges'[i].0, merges'[i].1, elems + k);
    }
  }

  lemma FirstFrame(s: set<nat>, f: seq<nat>, f': seq<nat>, d: seq<nat>, d': seq<nat>, a: nat, b: nat, bound: nat)
    requires FirstTwo(s, f, d, a, b) && |f| == |f'| && |d| == |d'| && bound <= |f| && bound <= |d|
    requires forall x :: x in s ==> x < bound
    requires forall x :: 0 <= x < bound ==> f[x] == f'[x] && d[x] == d'[x]
    ensures FirstTwo(s, f', d', a, b)
  {
  }

  lemma HeightsGrow(leaves: set<nat>, elems: nat, merges: seq<(nat, nat)>, d: seq<nat>, a: nat, b: nat)
    requires History(leaves, elems, merges) && HeightsAdd(d, leaves, elems, merges) && elems + |merges| < |d| && a < elems + |merges| && b < elems + |merges|
    ensures HeightsAdd(d[elems + |merges| := Higher(d[a], d[b]) + 1], leaves, elems, merges + [(a, b)])
  {
    hide Live;
    var k := |merges|;
    var d', merges' := d[elems + k := Higher(d[a], d[b]) + 1], merges + [(a, b)];
    forall i | 0 <= i < |merges'| ensures HeightAt(d', elems, merges', i) {
      if i < k {
        LiveStep(leaves, elems, merges, i);
        LiveBelow(leaves, elems, merges, i);
        assert HeightAt(d, elems, merges, i);
      }
    }
  }

  lemma QueueSizes(h: seq<nat>, len: nat, live: set<nat>, f: seq<nat>, d: seq<nat>)
    requires Queue(h, len, live, f, d)
    ensures |f| <= |d|
  {
  }

  lemma MergedBasics(leaves: set<nat>, elems: nat, merges: seq<(nat, nat)>, f: seq<nat>, dl: seq<nat>, total: nat)
    requires Merged(leaves, elems, merges, f, dl, total)
    ensures History(leaves, elems, merges) && |f| == |dl| && elems + |leaves| <= |f|
    ensures elems + |merges| !in Live(leaves, elems, merges, |merges|)
    ensures |Live(leaves, elems, merges, |merges|)| == |leaves| - |merges|
    ensures forall x :: x in Live(leaves, elems, merges, |merges|) ==> x < elems + |merges|
  {
    LiveBelow(leaves, elems, merges, |merges|);
  }
}
