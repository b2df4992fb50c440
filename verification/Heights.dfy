/** What breaking ties by subtree height is for: among the trees of least cost the merged one is
    lowest.  So code lengths are cut off only where every code of least cost has longer ones. */
module Heights {
  import opened Bits
  import opened Sums
  import opened Huffman
  import opened Heap

  function Higher(x: nat, y: nat): nat {
    if x > y then x else y
  }

  /** Leaves have height zero; a father is one higher than the higher one of its sons. */
  ghost predicate HeightsAdd(hgt: seq<nat>, leaves: set<nat>, elems: nat, merges: seq<(nat, nat)>) {
    && elems + |merges| <= |hgt|
    && (forall x :: x in leaves ==> x < |hgt| && hgt[x] == 0)
    && (forall i :: 0 <= i < |merges| ==> HeightAt(hgt, elems, merges, i))
  }

  ghost predicate HeightAt(hgt: seq<nat>, elems: nat, merges: seq<(nat, nat)>, i: nat)
    requires i < |merges|
  {
    && elems + i < |hgt| && merges[i].0 < |hgt| && merges[i].1 < |hgt|
    && hgt[elems + i] == Higher(hgt[merges[i].0], hgt[merges[i].1]) + 1
  }

  /** Node n is the least in the order of the heap. */
  ghost predicate First(s: set<nat>, w: seq<nat>, hgt: seq<nat>, n: nat) {
    n in s && forall x :: x in s ==> Smaller(w, hgt, n, x)
  }

  ghost predicate FirstTwo(s: set<nat>, w: seq<nat>, hgt: seq<nat>, a: nat, b: nat) {
    First(s, w, hgt, a) && First(s - {a}, w, hgt, b)
  }

  /** Every merge takes the two first nodes. */
  ghost predicate Ordered(leaves: set<nat>, w: seq<nat>, hgt: seq<nat>, elems: nat, merges: seq<(nat, nat)>) {
    forall i :: 0 <= i < |merges| ==> FirstTwo(Live(leaves, elems, merges, i), w, hgt, merges[i].0, merges[i].1)
  }

  /** What the merging keeps of heights. */
  ghost predicate Balanced(leaves: set<nat>, w: seq<nat>, hgt: seq<nat>, elems: nat, merges: seq<(nat, nat)>) {
    HeightsAdd(hgt, leaves, elems, merges) && Ordered(leaves, w, hgt, elems, merges)
  }

  // ----- No cheapest tree is lower -----

  /** With these lengths no leaf below the members of s lies deeper than `top`. */
  ghost predicate Under(s: set<nat>, lens: seq<nat>, hgt: seq<nat>, top: nat) {
    forall x :: x in s ==> x < |lens| && x < |hgt| && lens[x] + hgt[x] <= top
  }

  /** No lengths that leave room for a prefix code cost less than c. */
  ghost predicate CostsAtLeast(s: set<nat>, w: seq<nat>, m: nat, c: int) {
    forall lens: seq<nat> :: |lens| == |w| && KraftOk(s, lens, m) ==> c <= Cost(s, w, lens)
  }

  /** Giving the longer length to the node that comes first in the order does not make lengths of
      least cost higher. */
  lemma SwapUnder(s: set<nat>, w: seq<nat>, hgt: seq<nat>, lens: seq<nat>, a: nat, x: nat, m: nat, top: nat, c: int)
    requires a in s && x in s && |w| == |lens| && KraftOk(s, lens, m) && Under(s, lens, hgt, top)
    requires Smaller(w, hgt, a, x) && lens[a] <= lens[x] && Cost(s, w, lens) <= c && CostsAtLeast(s, w, m, c)
    ensures KraftOk(s, Swap(lens, a, x), m) && Cost(s, w, Swap(lens, a, x)) <= c && Under(s, Swap(lens, a, x), hgt, top)
  {
    hide Sum, Products, Shares, Cost, Saving;
    SwapImproves(s, w, lens, a, x, m);
    Rearrange(w[a], w[x], lens[a], lens[x]);
  }

  /** Lengths of least cost under `top` stay so when the first two nodes become the deepest siblings. */
  lemma SiblingsUnder(s: set<nat>, w: seq<nat>, hgt: seq<nat>, lens: seq<nat>, a: nat, b: nat, m: nat, top: nat, c: int) returns (lens': seq<nat>)
    requires FirstTwo(s, w, hgt, a, b) && a != b && |w| == |lens| && KraftOk(s, lens, m) && Under(s, lens, hgt, top)
    requires Cost(s, w, lens) <= c && CostsAtLeast(s, w, m, c)
    ensures |lens'| == |lens| && KraftOk(s, lens', m) && lens'[a] == lens'[b] > 0
    ensures Cost(s, w, lens') <= c && Under(s, lens', hgt, top)
  {
    hide Sum, Shares, Products, Cost, CostsAtLeast;
    var l0, x, y := MakeDeepPair(s, w, lens, a, b, m);
    var u := if y == a then y else x;
    var v := if y == a then x else y;
    var l1 := Swap(l0, a, u);
    SwapUnder(s, w, hgt, l0, a, u, m, top, c);
    assert l1[a] == l1[v] && v != a && forall i :: i in s ==> l1[i] <= l1[a];
    assert v in s - {a};
    SwapUnder(s, w, hgt, l1, b, v, m, top, c);
    lens' := Swap(l1, b, v);
    NotBothRoots(s, lens', a, b, m);
  }

  /** From the live nodes before a merge to those after it. */
  lemma StepUnder(s: set<nat>, w: seq<nat>, hgt: seq<nat>, lens: seq<nat>, a: nat, b: nat, f: nat, m: nat, top: nat, c: int) returns (lens': seq<nat>)
    requires FirstTwo(s, w, hgt, a, b) && a != b && f !in s && |w| == |lens| && f < |w| && f < |hgt|
    requires KraftOk(s, lens, m) && Under(s, lens, hgt, top) && Cost(s, w, lens) <= c && CostsAtLeast(s, w, m, c)
    requires w[f] == w[a] + w[b] && hgt[f] == Higher(hgt[a], hgt[b]) + 1
    ensures |lens'| == |lens| && KraftOk(s - {a, b} + {f}, lens', m)
    ensures Cost(s - {a, b} + {f}, w, lens') <= c - w[f] && Under(s - {a, b} + {f}, lens', hgt, top)
  {
    hide Sum, Shares, Products, Cost, CostsAtLeast;
    var paired := SiblingsUnder(s, w, hgt, lens, a, b, m, top, c);
    lens' := FoldLens(s, w, paired, a, b, f, m);
  }

  /** Main lemma: lengths of least cost reach as deep as the merged tree. */
  lemma {:induction false} NoneIsLower(leaves: set<nat>, w: seq<nat>, hgt: seq<nat>, elems: nat, merges: seq<(nat, nat)>,
                                       i: nat, lens: seq<nat>, m: nat, top: nat)
    requires Finished(leaves, elems, merges) && WeightsAdd(w, elems, merges) && Greedy(leaves, w, elems, merges)
    requires Balanced(leaves, w, hgt, elems, merges) && i <= |merges| && |lens| == |w|
    requires KraftOk(Live(leaves, elems, merges, i), lens, m) && Under(Live(leaves, elems, merges, i), lens, hgt, top)
    requires Cost(Live(leaves, elems, merges, i), w, lens) <= Created(w, elems, |merges|, i)
    ensures hgt[elems + |merges| - 1] <= top
    decreases |merges| - i
  {
    hide KraftOk, Cost, History, Greedy, FirstTwo, Live, Ordered, HeightsAdd, WeightsAdd, Created, CostsAtLeast;
    if i == |merges| {
      RootAlone(leaves, elems, merges);
      BalancedAt(leaves, w, hgt, elems, merges, i - 1);
    } else {
      LiveStep(leaves, elems, merges, i);
      BalancedAt(leaves, w, hgt, elems, merges, i);
      MergesCostLeast(leaves, w, elems, merges, i, m);
      CreatedStep(w, elems, |merges|, i);
      var folded := StepUnder(Live(leaves, elems, merges, i), w, hgt, lens, merges[i].0, merges[i].1, elems + i, m, top,
                              Created(w, elems, |merges|, i));
      NoneIsLower(leaves, w, hgt, elems, merges, i + 1, folded, m, top);
    }
  }

  lemma BalancedAt(leaves: set<nat>, w: seq<nat>, hgt: seq<nat>, elems: nat, merges: seq<(nat, nat)>, i: nat)
    requires Balanced(leaves, w, hgt, elems, merges) && WeightsAdd(w, elems, merges) && i < |merges|
    ensures FirstTwo(Live(leaves, elems, merges, i), w, hgt, merges[i].0, merges[i].1) && HeightAt(hgt, elems, merges, i)
    ensures elems + |merges| <= |w| && merges[i].0 < |w| && merges[i].1 < |w| && w[elems + i] == w[merges[i].0] + w[merges[i].1]
  {
    hide FirstTwo, Live;
  }

  lemma MergesCostLeast(leaves: set<nat>, w: seq<nat>, elems: nat, merges: seq<(nat, nat)>, i: nat, m: nat)
    requires History(leaves, elems, merges) && WeightsAdd(w, elems, merges) && Greedy(leaves, w, elems, merges) && i <= |merges|
    ensures CostsAtLeast(Live(leaves, elems, merges, i), w, m, Created(w, elems, |merges|, i))
  {
    hide KraftOk, Cost, History, Greedy, Live, Created;
    forall l: seq<nat> | |l| == |w| && KraftOk(Live(leaves, elems, merges, i), l, m)
      ensures Created(w, elems, |merges|, i) <= Cost(Live(leaves, elems, merges, i), w, l)
    {
      GreedyLowerBound(leaves, w, elems, merges, i, l, m);
    }
  }

  // ----- Heights and the depth limit -----

  /** A node and what is below it fit under the root. */
  lemma {:induction false} DepthAndHeight(leaves: set<nat>, hgt: seq<nat>, dad: seq<nat>, elems: nat, merges: seq<(nat, nat)>, max: nat, i: nat)
    requires Finished(leaves, elems, merges) && FathersUp(dad, elems, merges) && HeightsAdd(hgt, leaves, elems, merges) && i < |merges|
    ensures Depth(dad, elems + |merges| - 1, max, elems + i) + hgt[elems + i] <= hgt[elems + |merges| - 1]
    decreases |merges| - i
  {
    var k, root := |merges|, elems + |merges| - 1;
    if i < k - 1 {
      RootAlone(leaves, elems, merges);
      LiveStep(leaves, elems, merges, i);
      var j := MergedSometime(leaves, elems, merges, elems + i, i + 1);
      hide Live, History;
      DepthAndHeight(leaves, hgt, dad, elems, merges, max, j);
      assert HeightAt(hgt, elems, merges, j);
      assert dad[elems + i] == elems + j;
    }
  }

  /** A tree that is not higher than the limit is not cut. */
  lemma {:induction false} LowIsUncut(leaves: set<nat>, hgt: seq<nat>, dad: seq<nat>, elems: nat, merges: seq<(nat, nat)>, max: nat, i: nat)
    requires Finished(leaves, elems, merges) && FathersUp(dad, elems, merges) && HeightsAdd(hgt, leaves, elems, merges) && i <= |merges|
    requires hgt[elems + |merges| - 1] <= max
    ensures Excess(dad, elems + |merges| - 1, max, elems, |merges|, i) == 0
    decreases |merges| - i
  {
    hide Depth, Finished, FathersUp;
    if i < |merges| {
      LowIsUncut(leaves, hgt, dad, elems, merges, max, i + 1);
      DepthAndHeight(leaves, hgt, dad, elems, merges, max, i);
      assert HeightAt(hgt, elems, merges, i);
    }
  }

  lemma {:induction false} DepthBelow(dad: seq<nat>, root: nat, max: nat, n: nat)
    requires n <= root
    ensures Depth(dad, root, max, n) <= root - n
    decreases root - n
  {
    if n < root && n < |dad| && n < dad[n] <= root { DepthBelow(dad, root, max, dad[n]); }
  }

  lemma {:induction false} DeepIsUncut(dad: seq<nat>, elems: nat, k: nat, i: nat)
    requires i <= k && k >= 1
    ensures Excess(dad, elems + k - 1, elems + k, elems, k, i) == 0
    decreases k - i
  {
    if i < k {
      DeepIsUncut(dad, elems, k, i + 1);
      DepthBelow(dad, elems + k - 1, elems + k, elems + i);
    }
  }

  /** The merged tree, with no depth cut off. */
  ghost function TreeLens(dad: seq<nat>, elems: nat, k: nat): (r: seq<nat>)
    requires k >= 1
    ensures |r| == |dad|
  {
    Depths(dad, elems + k - 1, elems + k)
  }

  /** The lengths of the merged tree leave room for a prefix code and cost what the merges create. */
  lemma TreeCost(leaves: set<nat>, w: seq<nat>, dad: seq<nat>, elems: nat, merges: seq<(nat, nat)>)
    requires Finished(leaves, elems, merges) && FathersUp(dad, elems, merges) && WeightsAdd(w, elems, merges) && |w| == |dad|
    ensures KraftOk(leaves, TreeLens(dad, elems, |merges|), elems + |merges|)
    ensures Cost(leaves, w, TreeLens(dad, elems, |merges|)) == Created(w, elems, |merges|, 0)
  {
    hide Sum, Shares, Products;
    DeepIsUncut(dad, elems, |merges|, 0);
    CutDepthsKraft(leaves, dad, elems, merges, elems + |merges|, 0);
    DepthsCost(leaves, w, dad, elems, merges, elems + |merges|, 0);
  }

  /** Main result: if any lengths within the limit are as cheap as the merged tree, the merged tree
      is within the limit itself. */
  lemma CheapIsUncut(leaves: set<nat>, w: seq<nat>, hgt: seq<nat>, dad: seq<nat>, elems: nat, merges: seq<(nat, nat)>, max: nat, lens: seq<nat>)
    requires Finished(leaves, elems, merges) && FathersUp(dad, elems, merges) && WeightsAdd(w, elems, merges) && |w| == |dad| == |lens|
    requires Greedy(leaves, w, elems, merges) && Balanced(leaves, w, hgt, elems, merges)
    requires KraftOk(leaves, lens, max) && Cost(leaves, w, lens) <= Cost(leaves, w, TreeLens(dad, elems, |merges|))
    ensures hgt[elems + |merges| - 1] <= max
    ensures Excess(dad, elems + |merges| - 1, max, elems, |merges|, 0) == 0
  {
    hide Sum, Products, Shares, TreeLens, Ordered;
    TreeCost(leaves, w, dad, elems, merges);
    assert Under(leaves, lens, hgt, max);
    NoneIsLower(leaves, w, hgt, elems, merges, 0, lens, max, max);
    LowIsUncut(leaves, hgt, dad, elems, merges, max, 0);
  }

  // ----- High trees are heavy -----

  /** The least weight of a tree of height k with leaves of weight one or more: a Fibonacci number. */
  function Lightest(k: nat): (r: nat)
    ensures r >= 1
  {
    if k == 0 then 1 else if k == 1 then 2 else Lightest(k - 1) + Lightest(k - 2)
  }

  lemma {:induction false} LightestGrows(j: nat, k: nat)
    requires j <= k
    ensures Lightest(j) <= Lightest(k)
    decreases k
  {
    if j < k {
      LightestGrows(j, k - 1);
      if k == 1 { assert Lightest(0) == 1; }
    }
  }

  lemma LightestBeyond16()
    ensures Lightest(23) >= TWO16
  {
    assert Lightest(3) == 5;
    assert Lightest(5) == 13;
    assert Lightest(7) == 34 && Lightest(8) == 55;
    assert Lightest(10) == 144 && Lightest(11) == 233;
    assert Lightest(13) == 610 && Lightest(14) == 987;
    assert Lightest(16) == 2584 && Lightest(17) == 4181;
    assert Lightest(19) == 10946 && Lightest(20) == 17711;
    assert Lightest(22) == 46368 && Lightest(23) == 75025;
  }

  /** What is merged later weighs at least as much. */
  lemma {:induction false} LiveOutweighs(leaves: set<nat>, w: seq<nat>, elems: nat, merges: seq<(nat, nat)>, i: nat, j: nat, x: nat)
    requires History(leaves, elems, merges) && WeightsAdd(w, elems, merges) && Greedy(leaves, w, elems, merges)
    requires i < j <= |merges| && x in Live(leaves, elems, merges, j)
    ensures x < |w| && w[merges[i].0] <= w[merges[i].1] <= w[x]
    decreases j
  {
    hide Live, History, WeightsAdd, Greedy;
    GreedyAt(leaves, w, elems, merges, i);
    LiveStep(leaves, elems, merges, j - 1);
    if x == elems + j - 1 { GreedyAt(leaves, w, elems, merges, j - 1); }
    if i < j - 1 {
      LiveOutweighs(leaves, w, elems, merges, i, j - 1, if x == elems + j - 1 then merges[j - 1].1 else x);
    }
  }

  lemma GreedyAt(leaves: set<nat>, w: seq<nat>, elems: nat, merges: seq<(nat, nat)>, i: nat)
    requires WeightsAdd(w, elems, merges) && Greedy(leaves, w, elems, merges) && i < |merges|
    ensures TwoSmallest(Live(leaves, elems, merges, i), w, merges[i].0, merges[i].1)
    ensures elems + i < |w| && w[elems + i] == w[merges[i].0] + w[merges[i].1]
  {
    hide Live, TwoSmallest;
  }

  /** Every live node is heavy for its height. */
  lemma {:induction false} LiveIsHeavy(leaves: set<nat>, w: seq<nat>, hgt: seq<nat>, elems: nat, merges: seq<(nat, nat)>, i: nat, x: nat)
    requires History(leaves, elems, merges) && WeightsAdd(w, elems, merges) && Greedy(leaves, w, elems, merges) && HeightsAdd(hgt, leaves, elems, merges)
    requires (forall y :: y in leaves ==> y < |w| && w[y] >= 1) && i <= |merges| && x in Live(leaves, elems, merges, i)
    ensures x < |w| && x < |hgt| && w[x] >= Lightest(hgt[x])
    decreases i, 0
  {
    hide Live, History, WeightsAdd, Greedy;
    LiveBelow(leaves, elems, merges, i);
    if x < elems {
      LiveIsLeaf(leaves, elems, merges, i, x);
    } else {
      FatherIsHeavy(leaves, w, hgt, elems, merges, x - elems);
    }
  }

  lemma {:induction false} FatherIsHeavy(leaves: set<nat>, w: seq<nat>, hgt: seq<nat>, elems: nat, merges: seq<(nat, nat)>, i: nat)
    requires History(leaves, elems, merges) && WeightsAdd(w, elems, merges) && Greedy(leaves, w, elems, merges) && HeightsAdd(hgt, leaves, elems, merges)
    requires (forall y :: y in leaves ==> y < |w| && w[y] >= 1) && i < |merges|
    ensures elems + i < |w| && elems + i < |hgt| && w[elems + i] >= Lightest(hgt[elems + i])
    decreases i, 2
  {
    hide Greedy, Live, History, WeightsAdd;
    LiveStep(leaves, elems, merges, i);
    LiveBelow(leaves, elems, merges, i);
    GreedyAt(leaves, w, elems, merges, i);
    assert HeightAt(hgt, elems, merges, i);
    var (a, b) := merges[i];
    LiveIsHeavy(leaves, w, hgt, elems, merges, i, a);
    LiveIsHeavy(leaves, w, hgt, elems, merges, i, b);
    var son, brother := if hgt[a] > hgt[b] then a else b, if hgt[a] > hgt[b] then b else a;
    if hgt[son] > 0 {
      if son < elems { LiveIsLeaf(leaves, elems, merges, i, son); }
      BrotherIsHeavy(leaves, w, hgt, elems, merges, i, son - elems, brother);
    }
  }

  /** The brother of a node outweighs the higher one of its sons, as it is merged later. */
  lemma {:induction false} BrotherIsHeavy(leaves: set<nat>, w: seq<nat>, hgt: seq<nat>, elems: nat, merges: seq<(nat, nat)>, i: nat, j: nat, brother: nat)
    requires History(leaves, elems, merges) && WeightsAdd(w, elems, merges) && Greedy(leaves, w, elems, merges) && HeightsAdd(hgt, leaves, elems, merges)
    requires (forall y :: y in leaves ==> y < |w| && w[y] >= 1) && j < i < |merges| && brother in Live(leaves, elems, merges, i)
    ensures elems + j < |hgt| && hgt[elems + j] >= 1 && brother < |w| && w[brother] >= Lightest(hgt[elems + j] - 1)
    decreases i, 1
  {
    hide Greedy, Live, History, WeightsAdd, Lightest;
    LiveStep(leaves, elems, merges, j);
    assert HeightAt(hgt, elems, merges, j);
    LiveIsHeavy(leaves, w, hgt, elems, merges, j, merges[j].0);
    LiveIsHeavy(leaves, w, hgt, elems, merges, j, merges[j].1);
    LiveOutweighs(leaves, w, elems, merges, j, i, brother);
  }

  /** A tree that weighs less than that is not higher than the limit, so it is not cut. */
  lemma LightIsUncut(leaves: set<nat>, w: seq<nat>, hgt: seq<nat>, dad: seq<nat>, elems: nat, merges: seq<(nat, nat)>, max: nat)
    requires Finished(leaves, elems, merges) && FathersUp(dad, elems, merges) && WeightsAdd(w, elems, merges)
    requires Greedy(leaves, w, elems, merges) && HeightsAdd(hgt, leaves, elems, merges)
    requires (forall y :: y in leaves ==> y < |w| && w[y] >= 1) && w[elems + |merges| - 1] < Lightest(max + 1)
    ensures Excess(dad, elems + |merges| - 1, max, elems, |merges|, 0) == 0
  {
    hide Lightest;
    var root := elems + |merges| - 1;
    FatherIsHeavy(leaves, w, hgt, elems, merges, |merges| - 1);
    if hgt[root] > max { LightestGrows(max + 1, hgt[root]); }
    LowIsUncut(leaves, hgt, dad, elems, merges, max, 0);
  }
}
