/** What the length-limiting repair costs: short codes stay, heavier leaves have no longer codes, and
    each unit of excess costs at most the weight of one leaf with a long code. */
module CutCosts {
  import opened Bits
  import opened Sums
  import opened Huffman
  import opened BitLengths
  import opened LengthRepair
  import opened GenBitlen

  // ----- Lengths in the order of weights are the cheapest with their counts -----

  /** A heavier leaf never has a longer code. */
  ghost predicate Sorted(s: set<nat>, w: seq<nat>, lens: seq<nat>) {
    forall x, y :: x in s && y in s && x < |w| && y < |w| && x < |lens| && y < |lens| && w[x] > w[y] ==> lens[x] <= lens[y]
  }

  /** Members with more than l bits. */
  ghost function Above(s: set<nat>, lens: seq<nat>, l: nat): set<nat> {
    set x | x in s && x < |lens| && lens[x] > l
  }

  ghost predicate SameCounts(s: set<nat>, lens: seq<nat>, lens': seq<nat>) {
    forall l: nat :: Sum(s, Ind(lens, l)) == Sum(s, Ind(lens', l))
  }

  lemma {:induction false} CountIs(s: set<nat>, lens: seq<nat>, l: nat, q: set<nat>)
    requires q == set x | x in s && x < |lens| && lens[x] == l
    ensures |q| == Sum(s, Ind(lens, l))
  {
    hide Sum;
    var g := Ind(lens, l);
    assert s == q + (s - q);
    SumSplit(s, q, s - q, g);
    SumOfOnes(q, g);
    SumNone(s - q, g);
  }

  /** Equal counts leave equally many members above each length. */
  lemma {:induction false} SameAbove(s: set<nat>, lens: seq<nat>, lens': seq<nat>, max: nat, l: nat)
    requires SameCounts(s, lens, lens') && LeafLens(s, lens, max) && LeafLens(s, lens', max) && l <= max
    ensures |Above(s, lens, l)| == |Above(s, lens', l)|
    decreases max - l
  {
    hide Sum;
    if l == max {
      assert Above(s, lens, l) == {} == Above(s, lens', l);
    } else {
      SameAbove(s, lens, lens', max, l + 1);
      AboveStep(s, lens, l);
      AboveStep(s, lens', l);
    }
  }

  lemma AboveStep(s: set<nat>, lens: seq<nat>, l: nat)
    ensures |Above(s, lens, l)| == |Above(s, lens, l + 1)| + Sum(s, Ind(lens, l + 1))
  {
    hide Sum;
    var q := set x | x in s && x < |lens| && lens[x] == l + 1;
    CountIs(s, lens, l + 1, q);
    assert Above(s, lens, l) == Above(s, lens, l + 1) + q;
  }

  /** The lightest members weigh no more than any others of the same number. */
  lemma {:induction false} LightestSet(s: set<nat>, w: seq<nat>, a: set<nat>, b: set<nat>)
    requires a <= s && b <= s && |a| == |b| && (forall x :: x in s ==> x < |w|)
    requires forall x, y :: x in a && y in s - a ==> w[x] <= w[y]
    ensures Sum(a, w) <= Sum(b, w)
    decreases |a - b|
  {
    hide Sum;
    if a - b == {} {
      SameSet(a, b);
    } else {
      var x :| x in a - b;
      MissingOne(a, b, x);
      var y :| y in b - a;
      var b' := b - {y} + {x};
      SumRemove(b, y, w);
      SumInsert(b - {y}, x, w);
      assert a - b' == a - b - {x};
      LightestSet(s, w, a, b');
    }
  }

  lemma SameSet(a: set<nat>, b: set<nat>)
    requires a - b == {} && |a| == |b|
    ensures a == b
  {
    assert b == a + (b - a);
    assert |b| == |a| + |b - a|;
  }

  lemma MissingOne(a: set<nat>, b: set<nat>, x: nat)
    requires |a| == |b| && x in a - b
    ensures b - a != {}
  {
    if b - a == {} { SameSet(b, a); }
  }

  /** Weights times lengths cut off at k, layer by layer. */
  ghost function CutProducts(w: seq<nat>, lens: seq<nat>, k: nat): (r: seq<int>)
    requires |w| == |lens|
    ensures |r| == |w|
  {
    seq(|w|, i requires 0 <= i < |w| => w[i] * (if lens[i] < k then lens[i] else k))
  }

  ghost function Layer(w: seq<nat>, lens: seq<nat>, k: nat): (r: seq<int>)
    requires |w| == |lens|
    ensures |r| == |w|
  {
    seq(|w|, i requires 0 <= i < |w| => if lens[i] > k then w[i] else 0)
  }

  lemma LayerIs(s: set<nat>, w: seq<nat>, lens: seq<nat>, k: nat)
    requires |w| == |lens| && forall x :: x in s ==> x < |w|
    ensures Sum(s, Layer(w, lens, k)) == Sum(Above(s, lens, k), w)
  {
    hide Sum;
    var q, g := Above(s, lens, k), Layer(w, lens, k);
    assert s == q + (s - q);
    SumSplit(s, q, s - q, g);
    SumNone(s - q, g);
    SumEq(q, g, q, w);
  }

  lemma LayerStep(s: set<nat>, w: seq<nat>, lens: seq<nat>, k: nat)
    requires |w| == |lens| && forall x :: x in s ==> x < |w|
    ensures Sum(s, CutProducts(w, lens, k + 1)) == Sum(s, CutProducts(w, lens, k)) + Sum(Above(s, lens, k), w)
  {
    hide Sum;
    var g, h, r := CutProducts(w, lens, k), Layer(w, lens, k), CutProducts(w, lens, k + 1);
    forall i | 0 <= i < |w| ensures r[i] == g[i] + h[i] { Distribute(w[i], k, 1); }
    SumAdd(s, g, h, r);
    LayerIs(s, w, lens, k);
  }

  lemma {:induction false} LayersCheaper(s: set<nat>, w: seq<nat>, lens: seq<nat>, lens': seq<nat>, max: nat, k: nat)
    requires |w| == |lens| == |lens'| && (forall x :: x in s ==> x < |w|) && Sorted(s, w, lens) && k <= max
    requires SameCounts(s, lens, lens') && LeafLens(s, lens, max) && LeafLens(s, lens', max)
    ensures Sum(s, CutProducts(w, lens, k)) <= Sum(s, CutProducts(w, lens', k))
  {
    hide Sum, SameCounts;
    if k == 0 {
      SumNone(s, CutProducts(w, lens, 0));
      SumNone(s, CutProducts(w, lens', 0));
    } else {
      LayersCheaper(s, w, lens, lens', max, k - 1);
      LayerStep(s, w, lens, k - 1);
      LayerStep(s, w, lens', k - 1);
      SameAbove(s, lens, lens', max, k - 1);
      LightestSet(s, w, Above(s, lens, k - 1), Above(s, lens', k - 1));
    }
  }

  /** Main lemma: in the order of weights, lengths cost least among all with the same counts. */
  lemma SortedIsCheapest(s: set<nat>, w: seq<nat>, lens: seq<nat>, lens': seq<nat>, max: nat)
    requires |w| == |lens| == |lens'| && (forall x :: x in s ==> x < |w|) && Sorted(s, w, lens)
    requires SameCounts(s, lens, lens') && LeafLens(s, lens, max) && LeafLens(s, lens', max)
    ensures Cost(s, w, lens) <= Cost(s, w, lens')
  {
    hide Sum, SameCounts, Sorted;
    LayersCheaper(s, w, lens, lens', max, max);
    SumEq(s, Products(w, lens), s, CutProducts(w, lens, max));
    SumEq(s, Products(w, lens'), s, CutProducts(w, lens', max));
  }

  // ----- The repair, one leaf at a time -----

  lemma CountMove(s: set<nat>, lens: seq<nat>, x: nat, l: nat, k: nat)
    requires x in s && x < |lens|
    ensures Sum(s, Ind(lens[x := l], k)) == Sum(s, Ind(lens, k)) - (if lens[x] == k then 1 else 0) + (if l == k then 1 else 0)
  {
    hide Sum;
    SumUpdate(s, x, Ind(lens, k), Ind(lens[x := l], k));
  }

  lemma CostOfMove(s: set<nat>, w: seq<nat>, lens: seq<nat>, x: nat, l: nat)
    requires x in s && x < |lens| == |w|
    ensures Cost(s, w, lens[x := l]) == Cost(s, w, lens) - w[x] * lens[x] + w[x] * l
  {
    hide Sum;
    SumUpdate(s, x, Products(w, lens), Products(w, lens[x := l]));
  }

  /** Members with more than b bits weigh at most `top`. */
  ghost predicate TopWeight(s: set<nat>, w: seq<nat>, lens: seq<nat>, b: nat, top: nat) {
    forall x :: x in s && x < |lens| && x < |w| && lens[x] > b ==> w[x] <= top
  }

  lemma LeafWith(s: set<nat>, lens: seq<nat>, bl: seq<nat>, l: nat) returns (x: nat)
    requires CountsLens(bl, s, lens) && l <= MAX_BITS && bl[l] > 0
    ensures x in s && x < |lens| && lens[x] == l
  {
    hide Sum;
    if forall y :: y in s && y < |lens| ==> lens[y] != l { SumNone(s, Ind(lens, l)); }
    x :| x in s && x < |lens| && lens[x] == l;
  }

  /** One step: a leaf moves down one level and gets a leaf from the limit as its brother. */
  lemma MoveOne(s: set<nat>, w: seq<nat>, lens: seq<nat>, bl: seq<nat>, c: nat, max: nat, b: nat, top: nat) returns (lens': seq<nat>)
    requires |w| == |lens| && CountsLens(bl, s, lens) && LeafLens(s, lens, max) && TopWeight(s, w, lens, b, top)
    requires b < c < max <= MAX_BITS && bl[c] > 0 && bl[max] > 0 && 1 <= c
    ensures |lens'| == |lens| && CountsLens(RepairAt(bl, c, max), s, lens') && LeafLens(s, lens', max) && TopWeight(s, w, lens', b, top)
    ensures Cost(s, w, lens') <= Cost(s, w, lens) + top
  {
    hide Sum, Cost, CountsLens;
    var x := LeafWith(s, lens, bl, c);
    var y := LeafWith(s, lens, bl, max);
    var mid := lens[x := c + 1];
    lens' := mid[y := c + 1];
    CostOfMove(s, w, lens, x, c + 1);
    CostOfMove(s, w, mid, y, c + 1);
    Distribute(w[x], c, 1);
    SmallerFactor(w[y], c + 1, max);
    MovedCounts(s, lens, bl, c, max, x, y);
  }

  lemma MovedCounts(s: set<nat>, lens: seq<nat>, bl: seq<nat>, c: nat, max: nat, x: nat, y: nat)
    requires CountsLens(bl, s, lens) && 1 <= c < max <= MAX_BITS && bl[c] > 0 && bl[max] > 0
    requires x in s && y in s && x < |lens| && y < |lens| && lens[x] == c && lens[y] == max
    ensures CountsLens(RepairAt(bl, c, max), s, lens[x := c + 1][y := c + 1])
  {
    hide Sum;
    var mid := lens[x := c + 1];
    forall l | 0 <= l <= MAX_BITS ensures RepairAt(bl, c, max)[l] == Sum(s, Ind(mid[y := c + 1], l)) {
      CountMove(s, lens, x, c + 1, l);
      CountMove(s, mid, y, c + 1, l);
    }
  }

  /** Lengths with the repaired counts that cost at most `top` more for each unit of excess. */
  lemma {:induction false} RepairCost(s: set<nat>, w: seq<nat>, lens: seq<nat>, bl: seq<nat>, max: nat, excess: nat, total: nat, b: nat, top: nat)
    returns (lens': seq<nat>)
    requires |w| == |lens| && CountsLens(bl, s, lens) && LeafLens(s, lens, max) && TopWeight(s, w, lens, b, top)
    requires Overfull(bl, max, excess, total) && b < max && CntRoom(bl, max, b) >= excess
    ensures |lens'| == |lens| && CountsLens(RepairAll(bl, max, excess), s, lens') && LeafLens(s, lens', max)
    ensures Cost(s, w, lens') <= Cost(s, w, lens) + excess * top
    decreases excess
  {
    hide CountsLens, Cost, TopWeight, CntRoom, CntKraft, CntTotal, LeafLens, RepairAt;
    if excess == 0 {
      lens' := lens;
    } else {
      var c := LongestAboveRoom(bl, max, excess, total, b);
      RepairAllStep(bl, c, max, excess, total);
      RepairStep(bl, c, max, excess, total);
      RoomStep(bl, c, max, b);
      var one := MoveOne(s, w, lens, bl, c, max, b, top);
      lens' := RepairCost(s, w, one, RepairAt(bl, c, max), max, excess - 1, total, b, top);
      Distribute(top, excess - 1, 1);
    }
  }

  // ----- Room and excess of uncut lengths -----

  /** How much excess a leaf can take in, if its length lies above b and below the limit. */
  ghost function Slack(full: seq<nat>, max: nat, b: nat): (r: seq<int>)
    ensures |r| == |full|
  {
    seq(|full|, i requires 0 <= i < |full| => if b < full[i] < max then Pow2(max - full[i]) - 1 else 0)
  }

  ghost function Room(s: set<nat>, full: seq<nat>, max: nat, b: nat): int {
    Sum(s, Slack(full, max, b))
  }

  /** By how much lengths that are cut off at the limit overfill the code space. */
  ghost function OverBy(s: set<nat>, full: seq<nat>, max: nat): int {
    Sum(s, Shares(full, max)) - Pow2(max)
  }

  lemma {:induction false} RoomCounted(bl: seq<nat>, s: set<nat>, lens: seq<nat>, max: nat, b: nat)
    requires CountsLens(bl, s, lens) && max <= MAX_BITS
    ensures CntRoom(bl, max, b) == Room(s, lens, max, b)
    decreases max - b
  {
    hide Sum;
    if b + 1 >= max {
      SumNone(s, Slack(lens, max, b));
    } else {
      RoomCounted(bl, s, lens, max, b + 1);
      var p := Pow2(max - b - 1) - 1;
      var one := Scaled(Ind(lens, b + 1), p);
      SumScale(s, Ind(lens, b + 1), p, one);
      SumAdd(s, Slack(lens, max, b + 1), one, Slack(lens, max, b));
      Commute(p, bl[b + 1]);
    }
  }

  ghost function CutOff(full: seq<nat>, max: nat): (r: seq<nat>)
    ensures |r| == |full|
  {
    seq(|full|, i requires 0 <= i < |full| => if full[i] < max then full[i] else max)
  }

  lemma CutOffSame(s: set<nat>, full: seq<nat>, cut: seq<nat>, max: nat, b: nat)
    requires |cut| == |full| && forall x :: x in s ==> x < |full| && cut[x] == CutOff(full, max)[x]
    ensures Room(s, cut, max, b) == Room(s, full, max, b) && OverBy(s, cut, max) == OverBy(s, full, max)
  {
    hide Sum;
    SumEq(s, Slack(cut, max, b), s, Slack(full, max, b));
    SumEq(s, Shares(cut, max), s, Shares(full, max));
  }

  lemma CutOffCheaper(s: set<nat>, w: seq<nat>, full: seq<nat>, cut: seq<nat>, max: nat)
    requires |w| == |cut| == |full| && forall x :: x in s ==> x < |full| && cut[x] == CutOff(full, max)[x]
    ensures Cost(s, w, cut) <= Cost(s, w, full)
  {
    hide Sum;
    forall x | x in s ensures Products(w, cut)[x] <= Products(w, full)[x] { SmallerFactor(w[x], cut[x], full[x]); }
    SumLess(s, Products(w, cut), Products(w, full));
  }

  lemma {:induction false} SumLess(s: set<nat>, g: seq<int>, g': seq<int>)
    requires |g| == |g'| && forall i :: i in s && i < |g| ==> g[i] <= g'[i]
    ensures Sum(s, g) <= Sum(s, g')
  {
    if g != [] {
      var n := |g| - 1;
      SumLess(s, g[..n], g'[..n]);
      assert n in s ==> g[n] <= g'[n];
    }
  }

  // ----- What is true of the repaired lengths -----

  /** If the leaves with more than b bits can take in the excess, no code of up to b bits is touched,
      and each unit of excess costs at most as much as the heaviest of those leaves weighs. */
  ghost predicate NearAt(s: set<nat>, w: seq<nat>, lens: seq<nat>, full: seq<nat>, max: nat, b: nat)
    requires |w| == |lens| == |full|
  {
    Room(s, full, max, b) >= OverBy(s, full, max) ==>
      && (forall l :: 0 <= l <= b ==> Sum(s, Ind(lens, l)) == Sum(s, Ind(full, l)))
      && (forall top: nat :: TopWeight(s, w, full, b, top) ==> Cost(s, w, lens) <= Cost(s, w, full) + OverBy(s, full, max) * top)
  }

  ghost predicate Near(s: set<nat>, w: seq<nat>, lens: seq<nat>, full: seq<nat>, max: nat) {
    && |w| == |lens| == |full| && (forall x :: x in s ==> x < |w|) && Sorted(s, w, lens)
    && forall b :: 0 <= b < max ==> NearAt(s, w, lens, full, max, b)
  }

  /** Main lemma: repaired lengths, handed out in the order of weights, are near the uncut ones. */
  lemma RepairedIsNear(s: set<nat>, w: seq<nat>, full: seq<nat>, cut: seq<nat>, lens: seq<nat>, max: nat, excess: nat)
    requires |w| == |lens| == |full| == |cut| && 1 <= max <= MAX_BITS
    requires forall x :: x in s ==> x < |full| && full[x] >= 1 && cut[x] == CutOff(full, max)[x]
    requires RepairedFrom(s, cut, lens, max, excess) && Sorted(s, w, lens) && LeafLens(s, lens, max)
    requires excess == OverBy(s, full, max)
    ensures Near(s, w, lens, full, max)
  {
    hide Sorted, CountsLens, Sum, RepairAll, Overfull, NearAt;
    var bl: seq<nat> :| CountsLens(bl, s, cut) && CountsLens(RepairAll(bl, max, excess), s, lens) && Overfull(bl, max, excess, |s|);
    forall b | 0 <= b < max ensures NearAt(s, w, lens, full, max, b) {
      NearOne(s, w, full, cut, lens, bl, max, excess, b);
    }
  }

  lemma NearOne(s: set<nat>, w: seq<nat>, full: seq<nat>, cut: seq<nat>, lens: seq<nat>, bl: seq<nat>, max: nat, excess: nat, b: nat)
    requires |w| == |lens| == |full| == |cut| && 1 <= max <= MAX_BITS && b < max
    requires forall x :: x in s ==> x < |full| && full[x] >= 1 && cut[x] == CutOff(full, max)[x]
    requires CountsLens(bl, s, cut) && CountsLens(RepairAll(bl, max, excess), s, lens) && Overfull(bl, max, excess, |s|)
    requires Sorted(s, w, lens) && LeafLens(s, lens, max) && excess == OverBy(s, full, max)
    ensures NearAt(s, w, lens, full, max, b)
  {
    hide Sorted, Sum, RepairAll, CntKraft, CntTotal, CntRoom, Room, OverBy, Cost;
    if Room(s, full, max, b) >= excess {
      CutOffSame(s, full, cut, max, b);
      RoomCounted(bl, s, cut, max, b);
      ShortCodesStay(bl, max, excess, |s|, b);
      forall l | 0 <= l <= b ensures Sum(s, Ind(lens, l)) == Sum(s, Ind(full, l)) {
        SumEq(s, Ind(cut, l), s, Ind(full, l));
      }
      forall top: nat | TopWeight(s, w, full, b, top) ensures Cost(s, w, lens) <= Cost(s, w, full) + excess * top {
        var moved := RepairCost(s, w, cut, bl, max, excess, |s|, b, top);
        EqualCounts(RepairAll(bl, max, excess), s, lens, moved, max);
        SortedIsCheapest(s, w, lens, moved, max);
        CutOffCheaper(s, w, full, cut, max);
      }
    }
  }

  lemma EqualCounts(bl: seq<nat>, s: set<nat>, lens: seq<nat>, lens': seq<nat>, max: nat)
    requires CountsLens(bl, s, lens) && CountsLens(bl, s, lens') && LeafLens(s, lens, max) && LeafLens(s, lens', max) && max <= MAX_BITS
    ensures SameCounts(s, lens, lens')
  {
    hide Sum;
    forall l: nat ensures Sum(s, Ind(lens, l)) == Sum(s, Ind(lens', l)) {
      if l > MAX_BITS {
        SumNone(s, Ind(lens, l));
        SumNone(s, Ind(lens', l));
      }
    }
  }

  /** Lengths that need no repair are near themselves. */
  lemma NearItself(s: set<nat>, w: seq<nat>, lens: seq<nat>, max: nat)
    requires |w| == |lens| && (forall x :: x in s ==> x < |w|) && Sorted(s, w, lens) && Sum(s, Shares(lens, max)) == Pow2(max)
    ensures Near(s, w, lens, lens, max)
  {
    hide Sum, Sorted;
  }
}
