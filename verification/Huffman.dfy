/** Codes as lengths, and the tree that merging builds.

    Tree nodes are numbered as in the source: symbols are 0..elems-1 and the i-th merge
    creates node elems + i.  A merge history determines the tree, so the tree itself never
    appears as a data structure. */
module Huffman {
  import opened Bits
  import opened Sums

  /** Space taken by each length in units of 2^-m. */
  ghost function Shares(lens: seq<nat>, m: nat): (r: seq<int>)
    ensures |r| == |lens|
  {
    seq(|lens|, i requires 0 <= i < |lens| => Pow2(if lens[i] <= m then m - lens[i] else 0))
  }

  ghost predicate Bounded(s: set<nat>, lens: seq<nat>, m: nat) {
    forall i :: i in s ==> i < |lens| && lens[i] <= m
  }

  /** The lengths of the members of `s` leave room for a prefix code. */
  ghost predicate KraftOk(s: set<nat>, lens: seq<nat>, m: nat) {
    Bounded(s, lens, m) && Sum(s, Shares(lens, m)) <= Pow2(m)
  }

  ghost function Products(w: seq<nat>, lens: seq<nat>): (r: seq<int>)
    requires |w| == |lens|
    ensures |r| == |w|
  {
    seq(|w|, i requires 0 <= i < |w| => w[i] * lens[i])
  }

  /** Total number of bits: the sum of frequency times length. */
  ghost function Cost(s: set<nat>, w: seq<nat>, lens: seq<nat>): int
    requires |w| == |lens|
  {
    Sum(s, Products(w, lens))
  }

  /** The same lengths measured in finer units. */
  lemma Rescale(s: set<nat>, lens: seq<nat>, d: nat, m: nat)
    requires Bounded(s, lens, d) && d <= m
    ensures Sum(s, Shares(lens, m)) == Pow2(m - d) * Sum(s, Shares(lens, d))
    ensures KraftOk(s, lens, m) <==> KraftOk(s, lens, d)
  {
    var c := Pow2(m - d);
    forall i | 0 <= i < |lens| && i in s
      ensures Shares(lens, m)[i] == c * Shares(lens, d)[i]
    {
      Pow2Add(m - d, d - lens[i]);
    }
    SumScale(s, Shares(lens, d), c, Shares(lens, m));
    Pow2Add(m - d, d);
    SameOrder(c, Sum(s, Shares(lens, d)), Pow2(d));
  }

  lemma SameOrder(c: int, x: int, y: int)
    requires c > 0
    ensures c * x <= c * y <==> x <= y
  {
    if x < y {
      assert c * (y - x) > 0;
    } else if x > y {
      assert c * (x - y) > 0;
    }
  }

  // ----- Exchange argument: the two rarest symbols may be the deepest siblings -----

  lemma MaxLen(s: set<nat>, lens: seq<nat>, a: nat) returns (x: nat)
    requires a in s && forall i :: i in s ==> i < |lens|
    ensures x in s && forall i :: i in s ==> lens[i] <= lens[x]
    decreases s
  {
    x := a;
    if b :| b in s && b != a {
      var y := MaxLen(s - {a}, lens, b);
      x := if lens[y] > lens[a] then y else a;
      forall i | i in s ensures lens[i] <= lens[x] {
        if i != a { assert i in s - {a}; }
      }
    }
  }

  /** If a single symbol is deepest it can move up, because all other shares are even. */
  lemma Shorten(s: set<nat>, lens: seq<nat>, x: nat, b: nat) returns (lens': seq<nat>)
    requires x in s && b in s && x != b && x < |lens| && KraftOk(s, lens, lens[x])
    requires forall i :: i in s && i != x ==> lens[i] < lens[x]
    ensures lens[x] > 0 && lens' == lens[x := lens[x] - 1] && KraftOk(s, lens', lens[x])
  {
    hide Sum;
    var d := lens[x];
    assert lens[b] < d;
    lens' := lens[x := d - 1];
    var g, g' := Shares(lens, d), Shares(lens', d);
    assert Sum(s - {x}, g) % 2 == 0 by {
      forall i | 0 <= i < |g| && i in s - {x} ensures g[i] % 2 == 0 {
        assert lens[i] < d;
      }
      SumEven(s - {x}, g);
    }
    SumRemove(s, x, g);
    assert g[x] == 1 && g'[x] == 2;
    SumUpdate(s, x, g, g');
    assert Pow2(d) % 2 == 0;
  }

  ghost predicate DeepPair(s: set<nat>, lens: seq<nat>, x: nat, y: nat) {
    x in s && y in s && x != y && (forall i :: i in s ==> i < |lens|) && lens[x] == lens[y]
    && forall i :: i in s ==> lens[i] <= lens[x]
  }

  /** Any lengths can be improved until at least two symbols are deepest. */
  lemma {:induction false} MakeDeepPair(s: set<nat>, w: seq<nat>, lens: seq<nat>, a: nat, b: nat, m: nat)
    returns (lens': seq<nat>, x: nat, y: nat)
    requires a in s && b in s && a != b && |w| == |lens| && KraftOk(s, lens, m)
    ensures |lens'| == |lens| && KraftOk(s, lens', m) && DeepPair(s, lens', x, y)
    ensures Cost(s, w, lens') <= Cost(s, w, lens) && forall i :: i in s ==> lens'[i] <= lens[i]
    decreases Sum(s, lens)
  {
    x := MaxLen(s, lens, a);
    if y' :| y' in s && y' != x && lens[y'] == lens[x] {
      lens', y := lens, y';
    } else {
      Rescale(s, lens, lens[x], m);
      var other := if x == a then b else a;
      var shorter := Shorten(s, lens, x, other);
      Rescale(s, shorter, lens[x], m);
      SumUpdate(s, x, lens, shorter);
      SumNonNeg(s, shorter);
      SumUpdate(s, x, Products(w, lens), Products(w, shorter));
      SmallerFactor(w[x], shorter[x], lens[x]);
      lens', x, y := MakeDeepPair(s, w, shorter, a, b, m);
    }
  }

  lemma SmallerFactor(c: nat, x: nat, y: nat)
    requires x <= y
    ensures c * x <= c * y
  {
  }

  ghost function Swap(lens: seq<nat>, a: nat, x: nat): (r: seq<nat>)
    requires a < |lens| && x < |lens|
    ensures |r| == |lens|
  {
    lens[a := lens[x]][x := lens[a]]
  }

  /** Giving the longer length to the rarer symbol does not cost more. */
  lemma SwapImproves(s: set<nat>, w: seq<nat>, lens: seq<nat>, a: nat, x: nat, m: nat)
    requires a in s && x in s && |w| == |lens| && KraftOk(s, lens, m)
    requires w[a] <= w[x] && lens[a] <= lens[x]
    ensures KraftOk(s, Swap(lens, a, x), m)
    ensures Cost(s, w, Swap(lens, a, x)) == Cost(s, w, lens) - Saving(w[a], w[x], lens[a], lens[x])
    ensures Cost(s, w, Swap(lens, a, x)) <= Cost(s, w, lens)
  {
    hide Sum;
    if a != x {
      var mid, end := lens[a := lens[x]], Swap(lens, a, x);
      SumUpdate(s, a, Shares(lens, m), Shares(mid, m));
      SumUpdate(s, x, Shares(mid, m), Shares(end, m));
      SumUpdate(s, a, Products(w, lens), Products(w, mid));
      SumUpdate(s, x, Products(w, mid), Products(w, end));
      Rearrange(w[a], w[x], lens[a], lens[x]);
    } else {
      assert Saving(w[a], w[x], lens[a], lens[x]) == 0;
      assert Swap(lens, a, x) == lens;
    }
  }

  lemma Rearrange(p: nat, q: nat, k: nat, l: nat)
    requires p <= q && k <= l
    ensures p * l + q * k == p * k + q * l - Saving(p, q, k, l) && Saving(p, q, k, l) >= 0
    ensures p < q && k < l ==> Saving(p, q, k, l) > 0
  {
    var x, y := q - p, l - k;
    Distribute(q, k, y);
    Distribute(p, k, y);
    Distribute(y, p, x);
    SignOf(x, y);
  }

  lemma SignOf(x: nat, y: nat)
    ensures x * y >= 0 && (x > 0 && y > 0 ==> x * y > 0)
  {
  }

  /** What exchanging two lengths saves. */
  function Saving(p: nat, q: nat, k: nat, l: nat): int {
    (q - p) * (l - k)
  }

  /** `a` and `b` have the two smallest weights of `s`. */
  ghost predicate TwoSmallest(s: set<nat>, w: seq<nat>, a: nat, b: nat) {
    a in s && b in s && a != b && (forall i :: i in s ==> i < |w|) && w[a] <= w[b]
    && forall i :: i in s && i != a ==> w[b] <= w[i]
  }

  /** Without extra cost the two rarest symbols can get the same, nonzero length. */
  lemma Siblings(s: set<nat>, w: seq<nat>, lens: seq<nat>, a: nat, b: nat, m: nat) returns (lens': seq<nat>)
    requires TwoSmallest(s, w, a, b) && |w| == |lens| && KraftOk(s, lens, m)
    ensures |lens'| == |lens| && KraftOk(s, lens', m) && lens'[a] == lens'[b] > 0
    ensures Cost(s, w, lens') <= Cost(s, w, lens)
  {
    hide Sum, Shares, Products;
    var l0, x, y := MakeDeepPair(s, w, lens, a, b, m);
    var u := if y == a then y else x;
    var v := if y == a then x else y;
    var l1 := Swap(l0, a, u);
    SwapImproves(s, w, l0, a, u, m);
    assert l1[a] == l1[v] && v != a && forall i :: i in s ==> l1[i] <= l1[a];
    SwapImproves(s, w, l1, b, v, m);
    lens' := Swap(l1, b, v);
    NotBothRoots(s, lens', a, b, m);
  }

  lemma NotBothRoots(s: set<nat>, lens: seq<nat>, a: nat, b: nat, m: nat)
    requires a in s && b in s && a != b && KraftOk(s, lens, m)
    ensures lens[a] > 0 || lens[b] > 0
  {
    var g := Shares(lens, m);
    SumRemove(s, a, g);
    SumRemove(s - {a}, b, g);
    SumNonNeg(s - {a} - {b}, g);
  }

  // ----- Merge histories -----

  /** The nodes not yet merged before merge number `i`. */
  ghost function Live(leaves: set<nat>, elems: nat, merges: seq<(nat, nat)>, i: nat): set<nat>
    requires i <= |merges|
  {
    if i == 0 then leaves
    else Live(leaves, elems, merges, i - 1) - {merges[i - 1].0, merges[i - 1].1} + {elems + i - 1}
  }

  lemma LiveStep(leaves: set<nat>, elems: nat, merges: seq<(nat, nat)>, i: nat)
    requires History(leaves, elems, merges) && i < |merges|
    ensures var live := Live(leaves, elems, merges, i);
            && merges[i].0 in live && merges[i].1 in live && merges[i].0 != merges[i].1 && elems + i !in live
            && Live(leaves, elems, merges, i + 1) == live - {merges[i].0, merges[i].1} + {elems + i}
  {
    LiveBelow(leaves, elems, merges, i);
    assert MergeAt(leaves, elems, merges, i);
  }

  /** Every merge joins two distinct live nodes. */
  ghost predicate History(leaves: set<nat>, elems: nat, merges: seq<(nat, nat)>) {
    && (forall n :: n in leaves ==> n < elems)
    && forall i :: 0 <= i < |merges| ==> MergeAt(leaves, elems, merges, i)
  }

  ghost predicate MergeAt(leaves: set<nat>, elems: nat, merges: seq<(nat, nat)>, i: nat)
    requires i < |merges|
  {
    merges[i].0 in Live(leaves, elems, merges, i) && merges[i].1 in Live(leaves, elems, merges, i) && merges[i].0 != merges[i].1
  }

  /** The history has joined everything into one tree. */
  ghost predicate Finished(leaves: set<nat>, elems: nat, merges: seq<(nat, nat)>) {
    History(leaves, elems, merges) && |leaves| == |merges| + 1 && merges != []
  }

  /** A live symbol is a leaf. */
  lemma {:induction false} LiveIsLeaf(leaves: set<nat>, elems: nat, merges: seq<(nat, nat)>, i: nat, x: nat)
    requires i <= |merges| && x in Live(leaves, elems, merges, i) && x < elems
    ensures x in leaves
  {
    if i > 0 { LiveIsLeaf(leaves, elems, merges, i - 1, x); }
  }

  lemma {:induction false} LiveBelow(leaves: set<nat>, elems: nat, merges: seq<(nat, nat)>, i: nat)
    requires History(leaves, elems, merges) && i <= |merges|
    ensures forall n :: n in Live(leaves, elems, merges, i) ==> n < elems + i
    ensures |Live(leaves, elems, merges, i)| == |leaves| - i
  {
    if i > 0 {
      LiveBelow(leaves, elems, merges, i - 1);
      var l := Live(leaves, elems, merges, i - 1);
      var (a, b) := merges[i - 1];
      assert MergeAt(leaves, elems, merges, i - 1);
      assert |l - {a, b}| == |l| - 2 by {
        assert l - {a, b} == l - {a} - {b};
      }
      assert elems + i - 1 !in l;
    }
  }

  /** Only the last created node is left in the end. */
  lemma RootAlone(leaves: set<nat>, elems: nat, merges: seq<(nat, nat)>)
    requires Finished(leaves, elems, merges)
    ensures Live(leaves, elems, merges, |merges|) == {elems + |merges| - 1}
  {
    var k := |merges|;
    LiveBelow(leaves, elems, merges, k);
    var l, r := Live(leaves, elems, merges, k), elems + k - 1;
    assert r in l;
    assert |l - {r}| == 0;
    assert l == l - {r} + {r};
  }

  /** A node that is live at i but not in the end is merged at i or later. */
  lemma {:induction false} MergedSometime(leaves: set<nat>, elems: nat, merges: seq<(nat, nat)>, x: nat, i: nat) returns (m: nat)
    requires i <= |merges| && x in Live(leaves, elems, merges, i) && x !in Live(leaves, elems, merges, |merges|)
    ensures i <= m < |merges| && (merges[m].0 == x || merges[m].1 == x)
    decreases |merges| - i
  {
    m := i;
    if merges[i].0 != x && merges[i].1 != x {
      assert x in Live(leaves, elems, merges, i + 1);
      m := MergedSometime(leaves, elems, merges, x, i + 1);
    }
  }

  /** `w` gives every new node the sum of the weights it joins. */
  ghost predicate WeightsAdd(w: seq<nat>, elems: nat, merges: seq<(nat, nat)>) {
    && elems + |merges| <= |w|
    && forall i :: 0 <= i < |merges| ==>
         merges[i].0 < |w| && merges[i].1 < |w| && w[elems + i] == w[merges[i].0] + w[merges[i].1]
  }

  /** Every merge takes two nodes of smallest weight. */
  ghost predicate Greedy(leaves: set<nat>, w: seq<nat>, elems: nat, merges: seq<(nat, nat)>) {
    forall i :: 0 <= i < |merges| ==> TwoSmallest(Live(leaves, elems, merges, i), w, merges[i].0, merges[i].1)
  }

  /** Total weight of the nodes created by merges i, i+1, ... */
  ghost function Created(w: seq<nat>, elems: nat, k: nat, i: nat): nat
    requires i <= k && elems + k <= |w|
    decreases k - i
  {
    if i == k then 0 else w[elems + i] + Created(w, elems, k, i + 1)
  }

  lemma CreatedStep(w: seq<nat>, elems: nat, k: nat, i: nat)
    requires i < k && elems + k <= |w|
    ensures Created(w, elems, k, i) == w[elems + i] + Created(w, elems, k, i + 1)
  {
  }

  /** Replacing two siblings by their father. */
  lemma Fold(s: set<nat>, g: seq<int>, a: nat, b: nat, f: nat)
    requires a in s && b in s && a != b && f !in s && a < |g| && b < |g| && f < |g|
    ensures Sum(s - {a, b} + {f}, g) == Sum(s, g) - g[a] - g[b] + g[f]
  {
    SumRemove(s, a, g);
    SumRemove(s - {a}, b, g);
    assert s - {a, b} == s - {a} - {b};
    SumInsert(s - {a, b}, f, g);
  }

  /** The sum is unchanged by values outside the set. */
  lemma SumIgnores(s: set<nat>, g: seq<int>, g': seq<int>, f: nat)
    requires |g| == |g'| && f !in s && forall i :: 0 <= i < |g| && i != f ==> g[i] == g'[i]
    ensures Sum(s, g) == Sum(s, g')
  {
    SumEq(s, g, s, g');
  }

  /** Moving from the live nodes before a merge to those after it: the father of two nodes of
      length d gets length d - 1; space is kept and the cost drops by the father's weight. */
  lemma FoldLens(s: set<nat>, w: seq<nat>, lens: seq<nat>, a: nat, b: nat, f: nat, m: nat) returns (lens': seq<nat>)
    requires a in s && b in s && a != b && f !in s && |w| == |lens| && f < |w| && KraftOk(s, lens, m)
    requires lens[a] == lens[b] > 0 && w[f] == w[a] + w[b]
    ensures lens' == lens[f := lens[a] - 1] && KraftOk(s - {a, b} + {f}, lens', m)
    ensures Cost(s - {a, b} + {f}, w, lens') == Cost(s, w, lens) - w[f]
  {
    hide Sum;
    var d := lens[a];
    lens' := lens[f := d - 1];
    SumIgnores(s, Shares(lens, m), Shares(lens', m), f);
    SumIgnores(s, Products(w, lens), Products(w, lens'), f);
    Fold(s, Shares(lens', m), a, b, f);
    Fold(s, Products(w, lens'), a, b, f);
    assert Pow2(m - (d - 1)) == 2 * Pow2(m - d);
    FatherCost(w[a], w[b], d);
  }

  lemma FatherCost(p: nat, q: nat, d: nat)
    requires d > 0
    ensures p * d + q * d == (p + q) * (d - 1) + (p + q)
  {
  }

  lemma CostNonNeg(s: set<nat>, w: seq<nat>, lens: seq<nat>)
    requires |w| == |lens|
    ensures Cost(s, w, lens) >= 0
  {
    SumNonNeg(s, Products(w, lens));
  }

  lemma MergeStep(s: set<nat>, w: seq<nat>, lens: seq<nat>, a: nat, b: nat, f: nat, m: nat) returns (lens': seq<nat>)
    requires TwoSmallest(s, w, a, b) && f !in s && |w| == |lens| && f < |w| && KraftOk(s, lens, m)
    requires w[f] == w[a] + w[b]
    ensures |lens'| == |lens| && KraftOk(s - {a, b} + {f}, lens', m)
    ensures Cost(s - {a, b} + {f}, w, lens') + w[f] <= Cost(s, w, lens)
  {
    hide Sum, Products, Shares;
    var paired := Siblings(s, w, lens, a, b, m);
    lens' := FoldLens(s, w, paired, a, b, f, m);
  }

  /** No lengths that leave room for a prefix code cost less than the greedy merges create. */
  lemma {:induction false} GreedyLowerBound(leaves: set<nat>, w: seq<nat>, elems: nat, merges: seq<(nat, nat)>,
                                            i: nat, lens: seq<nat>, m: nat)
    requires History(leaves, elems, merges) && WeightsAdd(w, elems, merges) && Greedy(leaves, w, elems, merges)
    requires i <= |merges| && |lens| == |w| && KraftOk(Live(leaves, elems, merges, i), lens, m)
    ensures Created(w, elems, |merges|, i) <= Cost(Live(leaves, elems, merges, i), w, lens)
    decreases |merges| - i
  {
    hide KraftOk, Cost, History, TwoSmallest;
    var live := Live(leaves, elems, merges, i);
    if i == |merges| {
      CostNonNeg(live, w, lens);
    } else {
      LiveStep(leaves, elems, merges, i);
      var folded := MergeStep(live, w, lens, merges[i].0, merges[i].1, elems + i, m);
      GreedyLowerBound(leaves, w, elems, merges, i + 1, folded, m);
      CreatedStep(w, elems, |merges|, i);
    }
  }

  // ----- Depths -----

  /** Every node but the root has a father with a larger number. */
  ghost predicate FathersUp(dad: seq<nat>, elems: nat, merges: seq<(nat, nat)>) {
    && elems + |merges| <= |dad|
    && forall i :: 0 <= i < |merges| ==>
         && merges[i].0 < elems + i && dad[merges[i].0] == elems + i
         && merges[i].1 < elems + i && dad[merges[i].1] == elems + i
  }

  /** Distance to the root, cut off at `max`. */
  ghost function Depth(dad: seq<nat>, root: nat, max: nat, n: nat): (d: nat)
    ensures d <= max
    decreases root - n
  {
    if n < root && n < |dad| && n < dad[n] <= root then
      var d := Depth(dad, root, max, dad[n]);
      if d + 1 > max then max else d + 1
    else 0
  }

  ghost function Depths(dad: seq<nat>, root: nat, max: nat): (r: seq<nat>)
    ensures |r| == |dad|
  {
    seq(|dad|, n requires 0 <= n < |dad| => Depth(dad, root, max, n))
  }

  /** How many of the merges i, i+1, ... created a node at the depth limit. */
  ghost function Excess(dad: seq<nat>, root: nat, max: nat, elems: nat, k: nat, i: nat): nat
    requires i <= k
    decreases k - i
  {
    if i == k then 0
    else Excess(dad, root, max, elems, k, i + 1) + if Depth(dad, root, max, elems + i) == max then 1 else 0
  }

  /** Cutting depths off at the limit overfills the code space by one unit per merge below it. */
  lemma {:induction false} CutDepthsKraft(leaves: set<nat>, dad: seq<nat>, elems: nat, merges: seq<(nat, nat)>, max: nat, i: nat)
    requires Finished(leaves, elems, merges) && FathersUp(dad, elems, merges) && i <= |merges|
    ensures Sum(Live(leaves, elems, merges, i), Shares(Depths(dad, elems + |merges| - 1, max), max))
         == Pow2(max) + Excess(dad, elems + |merges| - 1, max, elems, |merges|, i)
    decreases |merges| - i
  {
    hide Sum;
    var k := |merges|;
    var root := elems + k - 1;
    var g := Shares(Depths(dad, root, max), max);
    if i == k {
      RootAlone(leaves, elems, merges);
      SumSingle(root, g);
    } else {
      LiveStep(leaves, elems, merges, i);
      CutDepthsKraft(leaves, dad, elems, merges, max, i + 1);
      SiblingShares(dad, elems, merges, max, i);
      hide Live, History, Shares, Depths, Depth, FathersUp;
      Fold(Live(leaves, elems, merges, i), g, merges[i].0, merges[i].1, elems + i);
    }
  }

  /** The shares of two siblings and of their father. */
  lemma SiblingShares(dad: seq<nat>, elems: nat, merges: seq<(nat, nat)>, max: nat, i: nat)
    requires FathersUp(dad, elems, merges) && i < |merges|
    ensures var root := elems + |merges| - 1;
            var g := Shares(Depths(dad, root, max), max);
            g[merges[i].0] + g[merges[i].1] == g[elems + i] + if Depth(dad, root, max, elems + i) == max then 1 else 0
  {
    var root := elems + |merges| - 1;
    var d := Depth(dad, root, max, elems + i);
    var e := if d + 1 > max then max else d + 1;
    assert Depth(dad, root, max, merges[i].0) == e && Depth(dad, root, max, merges[i].1) == e;
    if d < max {
      assert Pow2(max - d) == 2 * Pow2(max - d - 1);
    }
  }

  /** With no depth cut off, the tree costs exactly the weight its merges create. */
  lemma {:induction false} DepthsCost(leaves: set<nat>, w: seq<nat>, dad: seq<nat>, elems: nat, merges: seq<(nat, nat)>, max: nat, i: nat)
    requires Finished(leaves, elems, merges) && FathersUp(dad, elems, merges) && i <= |merges|
    requires WeightsAdd(w, elems, merges) && |w| == |dad|
    requires Excess(dad, elems + |merges| - 1, max, elems, |merges|, i) == 0
    ensures Cost(Live(leaves, elems, merges, i), w, Depths(dad, elems + |merges| - 1, max)) == Created(w, elems, |merges|, i)
    decreases |merges| - i
  {
    hide Sum;
    var k := |merges|;
    var root := elems + k - 1;
    var lens := Depths(dad, root, max);
    var g := Products(w, lens);
    if i == k {
      RootAlone(leaves, elems, merges);
      SumSingle(root, g);
    } else {
      LiveStep(leaves, elems, merges, i);
      hide Live, History, MergeAt;
      var live := Live(leaves, elems, merges, i);
      var a, b := merges[i].0, merges[i].1;
      Fold(live, g, a, b, elems + i);
      DepthsCost(leaves, w, dad, elems, merges, max, i + 1);
      assert lens[a] == lens[b] == lens[elems + i] + 1;
      FatherCost(w[a], w[b], lens[a]);
    }
  }

  /** Main result: when no code length is cut off, the merged tree is optimal among all code
      lengths that satisfy the Kraft inequality. */
  lemma GreedyIsOptimal(leaves: set<nat>, w: seq<nat>, dad: seq<nat>, elems: nat, merges: seq<(nat, nat)>, max: nat,
                        lens: seq<nat>, m: nat)
    requires Finished(leaves, elems, merges) && FathersUp(dad, elems, merges) && |w| == |dad| == |lens|
    requires WeightsAdd(w, elems, merges) && Greedy(leaves, w, elems, merges)
    requires Excess(dad, elems + |merges| - 1, max, elems, |merges|, 0) == 0
    requires KraftOk(leaves, lens, m)
    ensures Cost(leaves, w, Depths(dad, elems + |merges| - 1, max)) <= Cost(leaves, w, lens)
  {
    DepthsCost(leaves, w, dad, elems, merges, max, 0);
    GreedyLowerBound(leaves, w, elems, merges, 0, lens, m);
  }
}
