/** The priority queue used to build Huffman trees: a one-based binary heap of node numbers
    ordered by frequency, with the subtree depth as tie breaker. */
module Heap {

  /** `SMALLER` of the source, on frequencies `f` and depths `d`. */
  predicate Smaller(f: seq<nat>, d: seq<nat>, n: nat, m: nat) {
    n < |f| && m < |f| && n < |d| && m < |d| &&
    (f[n] < f[m] || (f[n] == f[m] && d[n] <= d[m]))
  }

  /** All heap entries are node numbers. */
  ghost predicate Nodes(h: seq<nat>, len: nat, f: seq<nat>, d: seq<nat>) {
    len < |h| && |f| <= |d| && forall i :: 1 <= i <= len ==> h[i] < |f|
  }

  /** Fathers at index lo and above are not larger than their sons. */
  ghost predicate HeapFrom(h: seq<nat>, len: nat, f: seq<nat>, d: seq<nat>, lo: nat)
    requires len < |h|
  {
    forall i :: 2 <= i <= len && lo <= i / 2 ==> Smaller(f, d, h[i / 2], h[i])
  }

  /** Same entries outside positions lo..len. */
  ghost predicate SameOutside(h: seq<nat>, h': seq<nat>, lo: nat, len: nat) {
    |h| == |h'| && forall i :: 0 <= i < |h| && !(lo <= i <= len) ==> h[i] == h'[i]
  }

  lemma SwapKeepsEntries(g: seq<nat>, len: nat, i: nat, j: nat)
    requires 1 <= i <= len < |g| && 1 <= j <= len
    ensures multiset(g[i := g[j]][j := g[i]][1..len + 1]) == multiset(g[1..len + 1])
  {
    var s := g[1..len + 1];
    assert g[i := g[j]][j := g[i]][1..len + 1] == s[i - 1 := s[j - 1]][j - 1 := s[i - 1]];
  }

  /** While sifting, `g` is the heap with the moving node at position k: all fathers but k are
      in order, and the father of k is not larger than the sons of k. */
  ghost predicate Sifting(g: seq<nat>, len: nat, f: seq<nat>, d: seq<nat>, lo: nat, k: nat)
    requires len < |g| && k < |g|
  {
    && (forall i :: 2 <= i <= len && lo <= i / 2 && i / 2 != k ==> Smaller(f, d, g[i / 2], g[i]))
    && (forall i :: 2 <= i <= len && i / 2 == k && lo <= k / 2 ==> Smaller(f, d, g[k / 2], g[i]))
  }

  /** One exchange of the moving node with its smaller son keeps the sifting invariant. */
  lemma SiftStep(g: seq<nat>, len: nat, f: seq<nat>, d: seq<nat>, lo: nat, k: nat, j: nat)
    requires Nodes(g, len, f, d) && 1 <= lo <= k <= len && Sifting(g, len, f, d, lo, k)
    requires j <= len && (j == 2 * k || j == 2 * k + 1)
    requires SonsNotSmaller(g, len, f, d, k, g[j])
    requires !Smaller(f, d, g[k], g[j])
    ensures Sifting(g[k := g[j]][j := g[k]], len, f, d, lo, j)
  {
    var g' := g[k := g[j]][j := g[k]];
    assert Smaller(f, d, g[j], g[k]);
    forall i | 2 <= i <= len && lo <= i / 2 && i / 2 != j
      ensures Smaller(f, d, g'[i / 2], g'[i])
    {
      if i == k {
        assert j / 2 == k;
      } else if i / 2 == k {
      }
    }
    forall i | 2 <= i <= len && i / 2 == j && lo <= j / 2
      ensures Smaller(f, d, g'[j / 2], g'[i])
    {
      assert j / 2 == k;
      assert Smaller(f, d, g[i / 2], g[i]);
    }
  }

  /** Node v is not larger than any son of position k. */
  ghost predicate SonsNotSmaller(g: seq<nat>, len: nat, f: seq<nat>, d: seq<nat>, k: nat, v: nat)
    requires len < |g|
  {
    forall i :: 2 <= i <= len && i / 2 == k ==> Smaller(f, d, v, g[i])
  }

  method IsSmaller(fc: array<nat>, depth: array<nat>, n: nat, m: nat) returns (r: bool)
    requires n < fc.Length && m < fc.Length && n < depth.Length && m < depth.Length
    ensures r == Smaller(fc[..], depth[..], n, m)
  {
    r := fc[n] < fc[m] || (fc[n] == fc[m] && depth[n] <= depth[m]);
  }

  /** The smaller of the two sons of position k. */
  method SmallestSon(heap: array<nat>, heapLen: nat, fc: array<nat>, depth: array<nat>, k: nat) returns (j: nat)
    requires Nodes(heap[..], heapLen, fc[..], depth[..])
    requires 1 <= k && 2 * k <= heapLen
    ensures 2 * k <= j <= heapLen && j <= 2 * k + 1 && SonsNotSmaller(heap[..], heapLen, fc[..], depth[..], k, heap[j])
  {
    j := 2 * k;
    if j < heapLen {
      var right := IsSmaller(fc, depth, heap[j + 1], heap[j]);
      if right {
        j := j + 1;
      }
    }
  }

  /** The state of sifting node v down from position lo of heap h0: h is the array with a hole at k. */
  ghost predicate SiftState(h0: seq<nat>, h: seq<nat>, len: nat, f: seq<nat>, d: seq<nat>, lo: nat, k: nat, v: nat) {
    && 1 <= lo <= k <= len < |h| == |h0| && v < |f|
    && Nodes(h, len, f, d)
    && Sifting(h[k := v], len, f, d, lo, k)
    && multiset(h[k := v][1..len + 1]) == multiset(h0[1..len + 1])
    && SameOutside(h0, h, lo, len)
  }

  lemma SiftStateStart(h: seq<nat>, len: nat, f: seq<nat>, d: seq<nat>, k: nat)
    requires Nodes(h, len, f, d) && 1 <= k <= len && HeapFrom(h, len, f, d, k + 1)
    ensures SiftState(h, h, len, f, d, k, k, h[k])
  {
    assert h[k := h[k]] == h;
  }

  lemma NodesSize(h: seq<nat>, len: nat, f: seq<nat>, d: seq<nat>)
    requires Nodes(h, len, f, d)
    ensures len < |h|
  {
  }

  /** The hole moves to the son's position. */
  lemma HoleNodes(h0: seq<nat>, h: seq<nat>, len: nat, f: seq<nat>, d: seq<nat>, lo: nat, k: nat, v: nat, j: nat)
    requires 1 <= lo <= k <= len < |h| && v < |f| && Nodes(h, len, f, d) && SameOutside(h0, h, lo, len) && k < j <= len && j / 2 == k
    requires SonsNotSmaller(h, len, f, d, k, h[j])
    ensures Nodes(h[k := v], len, f, d) && Nodes(h[k := h[j]], len, f, d) && SameOutside(h0, h[k := h[j]], lo, len)
    ensures SonsNotSmaller(h[k := v], len, f, d, k, h[j])
  {
    hide Smaller;
  }

  lemma SiftStateStep(h0: seq<nat>, h: seq<nat>, len: nat, f: seq<nat>, d: seq<nat>, lo: nat, k: nat, v: nat, j: nat)
    requires SiftState(h0, h, len, f, d, lo, k, v) && 2 * k <= j <= len && j <= 2 * k + 1
    requires SonsNotSmaller(h, len, f, d, k, h[j]) && !Smaller(f, d, v, h[j])
    ensures SiftState(h0, h[k := h[j]], len, f, d, lo, j, v)
  {
    hide Smaller, Sifting, SonsNotSmaller, Nodes, SameOutside;
    NodesSize(h, len, f, d);
    var g := h[k := v];
    HoleNodes(h0, h, len, f, d, lo, k, v, j);
    SiftStep(g, len, f, d, lo, k, j);
    SwapKeepsEntries(g, len, k, j);
    SwapInHole(h, k, v, j);
  }

  lemma SwapInHole(h: seq<nat>, k: nat, v: nat, j: nat)
    requires k < j < |h|
    ensures h[k := v][k := h[j]][j := v] == h[k := h[j]][j := v]
    ensures h[k := v][j] == h[j] && h[k := v][k] == v
  {
  }

  lemma SiftStateDone(h0: seq<nat>, h: seq<nat>, len: nat, f: seq<nat>, d: seq<nat>, lo: nat, k: nat, v: nat)
    requires SiftState(h0, h, len, f, d, lo, k, v) && SonsNotSmaller(h, len, f, d, k, v)
    ensures HeapFrom(h[k := v], len, f, d, lo)
    ensures multiset(h[k := v][1..len + 1]) == multiset(h0[1..len + 1])
    ensures SameOutside(h0, h[k := v], lo, len)
  {
  }

  method PqDownHeap(heap: array<nat>, heapLen: nat, fc: array<nat>, depth: array<nat>, k0: nat)
    requires heap != fc && heap != depth
    requires Nodes(heap[..], heapLen, fc[..], depth[..])
    requires 1 <= k0 <= heapLen && HeapFrom(heap[..], heapLen, fc[..], depth[..], k0 + 1)
    modifies heap
    ensures HeapFrom(heap[..], heapLen, fc[..], depth[..], k0)
    ensures multiset(heap[1..heapLen + 1]) == multiset(old(heap[1..heapLen + 1]))
    ensures SameOutside(old(heap[..]), heap[..], k0, heapLen)
  {
    hide Smaller, Sifting, HeapFrom, SonsNotSmaller, SameOutside;
    ghost var f, d, h0 := fc[..], depth[..], heap[..];
    var v, k := heap[k0], k0;
    SiftStateStart(h0, heapLen, f, d, k0);
    while 2 * k <= heapLen
      invariant fc[..] == f && depth[..] == d
      invariant SiftState(h0, heap[..], heapLen, f, d, k0, k, v)
      decreases heapLen - k
    {
      ghost var h := heap[..];
      var j := SmallestSon(heap, heapLen, fc, depth, k);
      var placed := IsSmaller(fc, depth, v, heap[j]);
      if placed {
        SonsFollow(h, heapLen, f, d, k, j, v);
        SiftStateDone(h0, h, heapLen, f, d, k0, k, v);
        heap[k] := v;
        assert heap[..] == h[k := v];
        return;
      }
      heap[k] := heap[j];
      assert heap[..] == h[k := h[j]];
      SiftStateStep(h0, h, heapLen, f, d, k0, k, v, j);
      k := j;
    }
    ghost var h := heap[..];
    NoSons(h, heapLen, f, d, k, v);
    SiftStateDone(h0, h, heapLen, f, d, k0, k, v);
    heap[k] := v;
    assert heap[..] == h[k := v];
  }

  lemma NoSons(g: seq<nat>, len: nat, f: seq<nat>, d: seq<nat>, k: nat, v: nat)
    requires len < |g| && 2 * k > len
    ensures SonsNotSmaller(g, len, f, d, k, v)
  {
  }

  lemma SonsFollow(g: seq<nat>, len: nat, f: seq<nat>, d: seq<nat>, k: nat, j: nat, v: nat)
    requires Nodes(g, len, f, d) && 1 <= j <= len && v < |f| && SonsNotSmaller(g, len, f, d, k, g[j])
    ensures Smaller(f, d, v, g[j]) ==> SonsNotSmaller(g, len, f, d, k, v)
  {
  }
}
