/** `gen_bitlen` as a whole: optimal lengths when they fit the limit, repaired ones otherwise,
    always with a Kraft sum of exactly one, exact length counts and exact costs. */
module GenBitlen {
  import opened Bits
  import opened Sums
  import opened Huffman
  import opened TreeMerge
  import opened BitLengths
  import opened LengthRepair

  // ----- Counts against sums over the leaves -----

  ghost predicate CountsLens(bl: seq<nat>, s: set<nat>, lens: seq<nat>) {
    |bl| == MAX_BITS + 1 && forall l :: 0 <= l <= MAX_BITS ==> bl[l] == Sum(s, Ind(lens, l))
  }

  /** Shares of the members with lengths 1..b. */
  ghost function SharesUpTo(lens: seq<nat>, max: nat, b: nat): (r: seq<int>)
    requires b <= max
    ensures |r| == |lens|
  {
    seq(|lens|, i requires 0 <= i < |lens| => if 1 <= lens[i] <= b then Pow2(max - lens[i]) else 0)
  }

  /** 1 for the members with lengths 1..b. */
  ghost function OnesUpTo(lens: seq<nat>, b: nat): (r: seq<int>)
    ensures |r| == |lens|
  {
    seq(|lens|, i requires 0 <= i < |lens| => if 1 <= lens[i] <= b then 1 else 0)
  }

  ghost function Scaled(g: seq<int>, c: int): (r: seq<int>)
    ensures |r| == |g|
  {
    seq(|g|, i requires 0 <= i < |g| => c * g[i])
  }

  lemma {:induction false} CountedKraft(bl: seq<nat>, s: set<nat>, lens: seq<nat>, max: nat, b: nat)
    requires CountsLens(bl, s, lens) && b <= max <= MAX_BITS
    ensures CntKraft(bl, max, b) == Sum(s, SharesUpTo(lens, max, b))
  {
    hide Sum;
    if b == 0 {
      SumZero(s, SharesUpTo(lens, max, 0));
    } else {
      CountedKraft(bl, s, lens, max, b - 1);
      var p := Pow2(max - b);
      var one := Scaled(Ind(lens, b), p);
      SumScale(s, Ind(lens, b), p, one);
      SumAdd(s, SharesUpTo(lens, max, b - 1), one, SharesUpTo(lens, max, b));
      Commute(p, bl[b]);
    }
  }

  lemma Commute(a: int, b: int)
    ensures a * b == b * a
  {
  }

  lemma {:induction false} CountedTotal(bl: seq<nat>, s: set<nat>, lens: seq<nat>, b: nat)
    requires CountsLens(bl, s, lens) && b <= MAX_BITS
    ensures CntTotal(bl, b) == Sum(s, OnesUpTo(lens, b))
  {
    hide Sum;
    if b == 0 {
      SumZero(s, OnesUpTo(lens, 0));
    } else {
      CountedTotal(bl, s, lens, b - 1);
      SumAdd(s, OnesUpTo(lens, b - 1), Ind(lens, b), OnesUpTo(lens, b));
    }
  }

  lemma {:induction false} SumZero(s: set<nat>, g: seq<int>)
    requires forall i :: 0 <= i < |g| ==> g[i] == 0
    ensures Sum(s, g) == 0
  {
    if g != [] { SumZero(s, g[..|g| - 1]); }
  }

  lemma {:induction false} SumOfOnes(s: set<nat>, g: seq<int>)
    requires forall i :: i in s ==> i < |g| && g[i] == 1
    ensures Sum(s, g) == |s|
    decreases |s|
  {
    if x :| x in s {
      SumOfOnes(s - {x}, g);
      SumRemove(s, x, g);
    } else {
      SumEmpty(g);
      assert s == {};
    }
  }

  /** All leaves have lengths within 1..max. */
  ghost predicate LeafLens(s: set<nat>, lens: seq<nat>, max: nat) {
    forall x :: x in s ==> x < |lens| && 1 <= lens[x] <= max
  }

  lemma CountsOfLeaves(bl: seq<nat>, s: set<nat>, lens: seq<nat>, max: nat)
    requires CountsLens(bl, s, lens) && LeafLens(s, lens, max) && max <= MAX_BITS
    ensures CntKraft(bl, max, max) == Sum(s, Shares(lens, max))
    ensures CntTotal(bl, max) == |s|
    ensures bl[0] == 0 && forall l :: max < l <= MAX_BITS ==> bl[l] == 0
  {
    hide Sum, CntKraft, CntTotal;
    CountedKraft(bl, s, lens, max, max);
    SumEq(s, SharesUpTo(lens, max, max), s, Shares(lens, max));
    CountedTotal(bl, s, lens, max);
    SumOfOnes(s, OnesUpTo(lens, max));
    forall l | l == 0 || max < l <= MAX_BITS ensures bl[l] == 0 {
      SumNone(s, Ind(lens, l));
    }
  }

  lemma {:induction false} SumNone(s: set<nat>, g: seq<int>)
    requires forall i :: 0 <= i < |g| && i in s ==> g[i] == 0
    ensures Sum(s, g) == 0
  {
    if g != [] {
      SumNone(s, g[..|g| - 1]);
      var n := |g| - 1;
      assert n in s ==> g[n] == 0;
    }
  }

  // ----- Facts about the cut-off depths -----

  /** More than enough nodes sit at the limit to pay for the excess, if there is any. */
  lemma {:induction false} FullDepthCount(leaves: set<nat>, dad: seq<nat>, elems: nat, merges: seq<(nat, nat)>, max: nat, i: nat)
    requires Finished(leaves, elems, merges) && FathersUp(dad, elems, merges) && i <= |merges| && max >= 1
    ensures Sum(Live(leaves, elems, merges, i), Ind(Depths(dad, elems + |merges| - 1, max), max))
         >= MoreThan(Excess(dad, elems + |merges| - 1, max, elems, |merges|, i))
    decreases |merges| - i
  {
    hide Sum;
    var root := elems + |merges| - 1;
    var g := Ind(Depths(dad, root, max), max);
    if i == |merges| {
      SumNonNeg(Live(leaves, elems, merges, i), g);
    } else {
      LiveStep(leaves, elems, merges, i);
      FullDepthCount(leaves, dad, elems, merges, max, i + 1);
      SiblingsAtLimit(dad, elems, merges, max, i);
      SumAtLeast(Live(leaves, elems, merges, i + 1), g, elems + i);
      hide Live, History, Depths, FathersUp;
      Fold(Live(leaves, elems, merges, i), g, merges[i].0, merges[i].1, elems + i);
    }
  }

  /** At least one more than a positive number. */
  function MoreThan(e: nat): nat {
    if e == 0 then 0 else e + 1
  }

  lemma SumAtLeast(s: set<nat>, g: seq<int>, x: nat)
    requires x in s && x < |g| && forall i :: 0 <= i < |g| ==> g[i] >= 0
    ensures Sum(s, g) >= g[x]
  {
    hide Sum;
    SumRemove(s, x, g);
    SumNonNeg(s - {x}, g);
  }

  lemma SiblingsAtLimit(dad: seq<nat>, elems: nat, merges: seq<(nat, nat)>, max: nat, i: nat)
    requires FathersUp(dad, elems, merges) && i < |merges|
    ensures var root := elems + |merges| - 1;
            var g := Ind(Depths(dad, root, max), max);
            g[merges[i].0] + g[merges[i].1] >= g[elems + i] + if Depth(dad, root, max, elems + i) == max then 1 else 0
  {
    var root := elems + |merges| - 1;
    var d := Depth(dad, root, max, elems + i);
    assert Depth(dad, root, max, merges[i].0) == Depth(dad, root, max, merges[i].1) == if d + 1 > max then max else d + 1;
  }

  /** The nodes over the limit come in pairs, one pair per unit of excess. */
  lemma {:induction false} OverIsTwiceExcess(h: seq<nat>, lo: nat, dad: seq<nat>, elems: nat, merges: seq<(nat, nat)>, max: nat, i: nat)
    requires FathersUp(dad, elems, merges) && TailOrder(h, merges) && i <= |merges| && max >= 1
    requires lo == HEAP_SIZE - 2 * |merges| - 1 && merges != []
    ensures OverCount(h, lo, HEAP_SIZE - 2 * i, dad, Depths(dad, elems + |merges| - 1, max), max)
         == 2 * Excess(dad, elems + |merges| - 1, max, elems, |merges|, i)
    decreases |merges| - i
  {
    var root := elems + |merges| - 1;
    var lens := Depths(dad, root, max);
    if i < |merges| {
      OverIsTwiceExcess(h, lo, dad, elems, merges, max, i + 1);
      var t := HEAP_SIZE - 2 * i;
      assert h[t - 1] == merges[i].0 && h[t - 2] == merges[i].1;
      OverTwo(h, lo, t, dad, lens, max);
    }
  }

  lemma OverTwo(h: seq<nat>, lo: nat, t: nat, dad: seq<nat>, lens: seq<nat>, max: nat)
    requires lo + 2 < t <= |h|
    ensures OverCount(h, lo, t, dad, lens, max) == OverCount(h, lo, t - 2, dad, lens, max)
            + (if Over(h[t - 2], dad, lens, max) then 1 else 0) + (if Over(h[t - 1], dad, lens, max) then 1 else 0)
  {
  }

  // ----- Last pass: handing the repaired lengths out -----

  /** Lengths handed out so far: `dl` and the 32-bit cost. */
  datatype Hand = Hand(dl: seq<nat>, opt: nat)

  /** Symbol m gets length `bits`. */
  ghost function Give(a: Hand, m: nat, bits: nat, f: seq<nat>): Hand
    requires m < |a.dl| && m < |f|
  {
    if a.dl[m] == bits then a
    else Hand(a.dl[m := bits], Wrap32(a.opt + CostChange(bits, a.dl[m], f[m])))
  }

  function CostChange(bits: nat, len: nat, freq: nat): int {
    (bits - len) * freq
  }

  /** The leaves among positions t.. of the heap array. */
  ghost function Served(h: seq<nat>, t: nat, leaves: set<nat>): set<nat>
    requires t <= |h|
  {
    leaves * Visited(h, t, |h|)
  }

  /** The members of q have received all codes longer than `bits` and all but n of that length. */
  ghost predicate Given(q: set<nat>, dl: seq<nat>, bl: seq<nat>, max: nat, bits: nat, n: nat)
    requires |bl| == MAX_BITS + 1
  {
    forall l :: 0 <= l <= MAX_BITS ==> GivenAt(q, dl, bl, max, bits, n, l)
  }

  ghost predicate GivenAt(q: set<nat>, dl: seq<nat>, bl: seq<nat>, max: nat, bits: nat, n: nat, l: nat)
    requires |bl| == MAX_BITS + 1 && l <= MAX_BITS
  {
    Sum(q, Ind(dl, l)) == if bits < l <= max then bl[l] else if l == bits then bl[l] - n else 0
  }

  /** Members of q have lengths bits..max; nothing else has changed. */
  ghost predicate Touched(q: set<nat>, dl: seq<nat>, dl0: seq<nat>, bits: nat, max: nat) {
    && |dl| == |dl0|
    && (forall x :: x in q ==> x < |dl| && bits <= dl[x] <= max)
    && (forall x :: 0 <= x < |dl| && x !in q ==> dl[x] == dl0[x])
  }

  /** From position t on, leaves that come later have no shorter codes. */
  ghost predicate Rising(h: seq<nat>, t: nat, leaves: set<nat>, dl: seq<nat>) {
    forall i, j :: t <= i < j < |h| && h[i] in leaves && h[j] in leaves ==> h[i] < |dl| && h[j] < |dl| && dl[h[i]] <= dl[h[j]]
  }

  lemma RisingLeaf(h: seq<nat>, lo: nat, t: nat, dad: seq<nat>, root: nat, leaves: set<nat>, maxCode: nat,
                   dl: seq<nat>, dl0: seq<nat>, bits: nat, max: nat)
    requires TreeOrder(h, lo, dad, root, leaves, maxCode) && lo < t < |h| && h[t] < |dl|
    requires Rising(h, t + 1, leaves, dl) && Touched(Served(h, t + 1, leaves), dl, dl0, bits, max)
    ensures Rising(h, t, leaves, dl[h[t] := bits])
  {
    hide TreeOrder, Visited;
    forall j | t < j < |h| && h[j] in leaves ensures h[j] != h[t] && h[j] < |dl| && bits <= dl[h[j]] {
      BehindInTree(h, lo, t, dad, root, leaves, maxCode, j);
      assert h[j] in Served(h, t + 1, leaves);
    }
  }

  lemma BehindInTree(h: seq<nat>, lo: nat, t: nat, dad: seq<nat>, root: nat, leaves: set<nat>, maxCode: nat, j: nat)
    requires TreeOrder(h, lo, dad, root, leaves, maxCode) && lo < t < j < |h|
    ensures h[j] != h[t] && h[j] in Visited(h, t + 1, |h|)
  {
  }

  lemma RisingNode(h: seq<nat>, t: nat, leaves: set<nat>, dl: seq<nat>)
    requires t < |h| && h[t] !in leaves && Rising(h, t + 1, leaves, dl)
    ensures Rising(h, t, leaves, dl)
  {
  }

  /** In front of the leaves that are served there are none. */
  lemma RisingDone(h: seq<nat>, lo: nat, t: nat, dad: seq<nat>, root: nat, leaves: set<nat>, maxCode: nat, dl: seq<nat>)
    requires TreeOrder(h, lo, dad, root, leaves, maxCode) && lo < t <= |h| && Served(h, t, leaves) == leaves && Rising(h, t, leaves, dl)
    ensures Rising(h, lo, leaves, dl)
  {
    forall i | lo <= i < t ensures h[i] !in leaves {
      assert h[i] !in Visited(h, t, |h|);
    }
  }

  lemma TouchOne(q: set<nat>, dl: seq<nat>, dl0: seq<nat>, bits: nat, max: nat, m: nat)
    requires Touched(q, dl, dl0, bits, max) && m < |dl| && bits <= max
    ensures Touched(q + {m}, dl[m := bits], dl0, bits, max)
  {
  }

  /** State of the last pass: the leaves from position t on have their new lengths; `n` codes of
      length `bits` and all shorter ones are still to be given. */
  ghost predicate Handing(h: seq<nat>, t: nat, leaves: set<nat>, bl: seq<nat>, max: nat, bits: nat, n: nat,
                          desc: TreeDesc, f: seq<nat>, dl0: seq<nat>, a: Hand, o: int) {
    && t <= |h| && 1 <= bits <= max <= MAX_BITS && |bl| == MAX_BITS + 1 && n <= bl[bits]
    && |a.dl| == |dl0| == |f|
    && var q := Served(h, t, leaves);
       && |leaves - q| == n + CntTotal(bl, bits - 1)
       && Given(q, a.dl, bl, max, bits, n)
       && Touched(q, a.dl, dl0, bits, max) && Rising(h, t, leaves, a.dl)
       && a.opt == Wrap32(o + Sum(leaves, DynCosts(desc, f, a.dl)))
  }

  lemma ServedStep(h: seq<nat>, lo: nat, t: nat, dad: seq<nat>, root: nat, leaves: set<nat>, maxCode: nat)
    requires TreeOrder(h, lo, dad, root, leaves, maxCode) && lo < t < |h|
    ensures Served(h, t, leaves) == Served(h, t + 1, leaves) + (if h[t] <= maxCode then {h[t]} else {})
    ensures h[t] !in Served(h, t + 1, leaves) && h[t] < |dad|
    ensures h[t] <= maxCode ==> h[t] in leaves - Served(h, t + 1, leaves)
  {
    hide Visited;
    VisitedBack(h, t);
  }

  lemma VisitedBack(h: seq<nat>, t: nat)
    requires t < |h|
    ensures Visited(h, t, |h|) == Visited(h, t + 1, |h|) + {h[t]}
    ensures (forall i :: t < i < |h| ==> h[i] != h[t]) ==> h[t] !in Visited(h, t + 1, |h|)
  {
  }

  /** When the scan reaches the root all leaves have been served. */
  lemma AllServed(h: seq<nat>, lo: nat, dad: seq<nat>, root: nat, leaves: set<nat>, maxCode: nat)
    requires TreeOrder(h, lo, dad, root, leaves, maxCode)
    ensures leaves - Served(h, lo + 1, leaves) == {}
  {
    forall x | x in leaves ensures x in Visited(h, lo + 1, |h|) {
      assert x in Visited(h, lo, |h|) && x != root;
    }
  }

  lemma CostMove(leaves: set<nat>, desc: TreeDesc, f: seq<nat>, dl: seq<nat>, m: nat, bits: nat)
    requires m in leaves && m < |f| == |dl|
    ensures Sum(leaves, DynCosts(desc, f, dl[m := bits])) == Sum(leaves, DynCosts(desc, f, dl)) + CostChange(bits, dl[m], f[m])
  {
    hide Sum;
    var g, g' := DynCosts(desc, f, dl), DynCosts(desc, f, dl[m := bits]);
    SumUpdate(leaves, m, g, g');
    Spread4(f[m], bits, dl[m], desc.Extra(m));
  }

  lemma Spread4(f: int, b: int, l: int, x: int)
    ensures f * (b + x) - f * (l + x) == (b - l) * f
  {
  }

  /** Giving one leaf its length. */
  lemma HandingLeaf(h: seq<nat>, lo: nat, t: nat, dad: seq<nat>, root: nat, leaves: set<nat>, maxCode: nat, bl: seq<nat>, max: nat,
                    bits: nat, n: nat, desc: TreeDesc, f: seq<nat>, dl0: seq<nat>, a: Hand, o: int)
    requires TreeOrder(h, lo, dad, root, leaves, maxCode) && lo < t < |h| && |f| == |dad| && n > 0
    requires Handing(h, t + 1, leaves, bl, max, bits, n, desc, f, dl0, a, o) && h[t] <= maxCode
    ensures h[t] < |a.dl| && Handing(h, t, leaves, bl, max, bits, n - 1, desc, f, dl0, Give(a, h[t], bits, f), o)
  {
    hide Sum, Wrap32, CostChange, DynCosts, TreeOrder, Served, Visited, CntTotal, Given, Touched, Rising;
    ServedStep(h, lo, t, dad, root, leaves, maxCode);
    var m, q, q' := h[t], Served(h, t + 1, leaves), Served(h, t, leaves);
    assert leaves - q' == leaves - q - {m};
    var a' := Give(a, m, bits, f);
    assert a'.dl == a.dl[m := bits];
    CostMove(leaves, desc, f, a.dl, m, bits);
    WrapAdd(o + Sum(leaves, DynCosts(desc, f, a.dl)), CostChange(bits, a.dl[m], f[m]));
    OneMoreGiven(q, a.dl, bl, max, bits, n, m);
    TouchOne(q, a.dl, dl0, bits, max, m);
    RisingLeaf(h, lo, t, dad, root, leaves, maxCode, a.dl, dl0, bits, max);
  }

  /** One more member of length `bits`. */
  lemma OneMoreGiven(q: set<nat>, dl: seq<nat>, bl: seq<nat>, max: nat, bits: nat, n: nat, m: nat)
    requires m < |dl| && m !in q && |bl| == MAX_BITS + 1 && n > 0 && Given(q, dl, bl, max, bits, n)
    ensures Given(q + {m}, dl[m := bits], bl, max, bits, n - 1)
  {
    hide Sum;
    var q', dl', n' := q + {m}, dl[m := bits], n - 1;
    forall l | 0 <= l <= MAX_BITS
      ensures GivenAt(q', dl', bl, max, bits, n', l)
    {
      assert GivenAt(q, dl, bl, max, bits, n, l);
      SumEq(q, Ind(dl, l), q, Ind(dl[m := bits], l));
      SumInsert(q, m, Ind(dl[m := bits], l));
    }
  }

  /** Passing over an inner node. */
  lemma HandingNode(h: seq<nat>, lo: nat, t: nat, dad: seq<nat>, root: nat, leaves: set<nat>, maxCode: nat, bl: seq<nat>, max: nat,
                    bits: nat, n: nat, desc: TreeDesc, f: seq<nat>, dl0: seq<nat>, a: Hand, o: int)
    requires TreeOrder(h, lo, dad, root, leaves, maxCode) && lo < t < |h| && h[t] > maxCode
    requires Handing(h, t + 1, leaves, bl, max, bits, n, desc, f, dl0, a, o)
    ensures Handing(h, t, leaves, bl, max, bits, n, desc, f, dl0, a, o)
  {
    hide Sum, Wrap32, DynCosts, TreeOrder, Served, Visited, CntTotal, Given, Touched, Rising;
    ServedStep(h, lo, t, dad, root, leaves, maxCode);
    assert Served(h, t, leaves) == Served(h, t + 1, leaves);
    LeavesBelow(h, lo, dad, root, leaves, maxCode);
    RisingNode(h, t, leaves, a.dl);
  }

  lemma LeavesBelow(h: seq<nat>, lo: nat, dad: seq<nat>, root: nat, leaves: set<nat>, maxCode: nat)
    requires TreeOrder(h, lo, dad, root, leaves, maxCode)
    ensures forall x :: x in leaves ==> x <= maxCode
  {
  }

  /** Going on to the next shorter length. */
  lemma HandingNext(h: seq<nat>, t: nat, leaves: set<nat>, bl: seq<nat>, max: nat, bits: nat,
                    desc: TreeDesc, f: seq<nat>, dl0: seq<nat>, a: Hand, o: int)
    requires Handing(h, t, leaves, bl, max, bits, 0, desc, f, dl0, a, o) && bits > 1
    ensures Handing(h, t, leaves, bl, max, bits - 1, bl[bits - 1], desc, f, dl0, a, o)
  {
    hide Sum, Wrap32, DynCosts, Served, Visited;
    var q, b, n := Served(h, t, leaves), bits - 1, bl[bits - 1];
    forall l | 0 <= l <= MAX_BITS ensures GivenAt(q, a.dl, bl, max, b, n, l) {
      assert GivenAt(q, a.dl, bl, max, bits, 0, l);
    }
  }

  lemma HandingStart(h: seq<nat>, leaves: set<nat>, bl: seq<nat>, max: nat, total: nat,
                     desc: TreeDesc, f: seq<nat>, dl: seq<nat>, opt: nat, o: int)
    requires Overfull(bl, max, 0, total) && |leaves| == total && |f| == |dl|
    requires opt == Wrap32(o + Sum(leaves, DynCosts(desc, f, dl)))
    ensures Handing(h, |h|, leaves, bl, max, max, bl[max], desc, f, dl, Hand(dl, opt), o)
  {
    hide Sum, Wrap32, DynCosts, CntKraft;
    var q: set<nat>, n := Served(h, |h|, leaves), bl[max];
    assert q == {} && leaves - q == leaves;
    forall l | 0 <= l <= MAX_BITS ensures GivenAt(q, dl, bl, max, max, n, l) {
      SumEmpty(Ind(dl, l));
    }
  }

  /** After the last length everything is served, and the counts are exact. */
  lemma HandingDone(h: seq<nat>, lo: nat, t: nat, dad: seq<nat>, root: nat, leaves: set<nat>, maxCode: nat, bl: seq<nat>, max: nat,
                    desc: TreeDesc, f: seq<nat>, dl0: seq<nat>, a: Hand, o: int)
    requires TreeOrder(h, lo, dad, root, leaves, maxCode) && lo < t
    requires Handing(h, t, leaves, bl, max, 1, 0, desc, f, dl0, a, o) && Overfull(bl, max, 0, |leaves|)
    ensures CountsLens(bl, leaves, a.dl) && LeafLens(leaves, a.dl, max)
    ensures |a.dl| == |dl0| && forall x :: 0 <= x < |dl0| && x !in leaves ==> a.dl[x] == dl0[x]
    ensures a.opt == Wrap32(o + Sum(leaves, DynCosts(desc, f, a.dl))) && Rising(h, lo, leaves, a.dl)
  {
    hide Sum, Wrap32, DynCosts, CntKraft, TreeOrder, Visited, Rising;
    var q := Served(h, t, leaves);
    assert q == leaves by {
      assert leaves - q == {};
    }
    forall l | 0 <= l <= MAX_BITS ensures bl[l] == Sum(leaves, Ind(a.dl, l)) {
      assert GivenAt(q, a.dl, bl, max, 1, 0, l);
    }
    RisingDone(h, lo, t, dad, root, leaves, maxCode, a.dl);
  }

  /** Scans backwards until `count` symbols have received the length `bits`. */
  method HandOut(heap: array<nat>, start: nat, fc: array<nat>, dl: array<nat>, maxCode: nat, bits: nat, count: nat, optLen: nat,
                 ghost lo: nat, ghost dad: seq<nat>, ghost root: nat, ghost leaves: set<nat>, ghost bl: seq<nat>, ghost max: nat,
                 ghost desc: TreeDesc, ghost dl0: seq<nat>, ghost o: int)
    returns (h: nat, optLen': nat)
    requires heap != dl && fc != dl && fc.Length == |dad|
    requires TreeOrder(heap[..], lo, dad, root, leaves, maxCode) && lo < start <= heap.Length
    requires Handing(heap[..], start, leaves, bl, max, bits, count, desc, fc[..], dl0, Hand(dl[..], optLen), o)
    modifies dl
    ensures lo < h <= heap.Length
    ensures Handing(heap[..], h, leaves, bl, max, bits, 0, desc, fc[..], dl0, Hand(dl[..], optLen'), o)
  {
    hide Handing, TreeOrder, Wrap32, CostChange, Give;
    ghost var hs: seq<nat>, f: seq<nat> := heap[..], fc[..];
    h, optLen' := start, optLen;
    var n := count;
    while n != 0
      invariant lo < h <= heap.Length && heap[..] == hs && fc[..] == f
      invariant Handing(hs, h, leaves, bl, max, bits, n, desc, f, dl0, Hand(dl[..], optLen'), o)
      decreases h
    {
      NotAtRoot(hs, lo, h, dad, root, leaves, maxCode, bl, max, bits, n, desc, f, dl0, Hand(dl[..], optLen'), o);
      h := h - 1;
      var m := heap[h];
      if m > maxCode {
        HandingNode(hs, lo, h, dad, root, leaves, maxCode, bl, max, bits, n, desc, f, dl0, Hand(dl[..], optLen'), o);
      } else {
        HandingLeaf(hs, lo, h, dad, root, leaves, maxCode, bl, max, bits, n, desc, f, dl0, Hand(dl[..], optLen'), o);
        optLen' := GiveLength(m, fc, dl, bits, optLen');
        n := n - 1;
      }
    }
  }

  method GiveLength(m: nat, fc: array<nat>, dl: array<nat>, bits: nat, optLen: nat) returns (optLen': nat)
    requires fc != dl && m < dl.Length && m < fc.Length
    modifies dl
    ensures Hand(dl[..], optLen') == Give(old(Hand(dl[..], optLen)), m, bits, fc[..])
  {
    hide Wrap32, CostChange;
    optLen' := optLen;
    if dl[m] != bits {
      optLen' := Wrap32(optLen + CostChange(bits, dl[m], fc[m]));
      dl[m] := bits;
    }
  }

  /** While codes remain to be given, the scan has not come down to the root. */
  lemma NotAtRoot(h: seq<nat>, lo: nat, t: nat, dad: seq<nat>, root: nat, leaves: set<nat>, maxCode: nat, bl: seq<nat>, max: nat,
                  bits: nat, n: nat, desc: TreeDesc, f: seq<nat>, dl0: seq<nat>, a: Hand, o: int)
    requires TreeOrder(h, lo, dad, root, leaves, maxCode) && lo < t && n > 0
    requires Handing(h, t, leaves, bl, max, bits, n, desc, f, dl0, a, o)
    ensures t > lo + 1 && |a.dl| == |f| && (forall j :: lo < j < |h| ==> h[j] < |dad|)
  {
    hide Sum, Wrap32, DynCosts, Served, Given, Touched;
    AllServed(h, lo, dad, root, leaves, maxCode);
    TotalNonNeg(bl, bits - 1);
  }

  lemma {:induction false} TotalNonNeg(bl: seq<nat>, b: nat)
    requires b < |bl|
    ensures CntTotal(bl, b) >= 0
  {
    if b > 0 { TotalNonNeg(bl, b - 1); }
  }

  // ----- The whole function -----

  /** What `gen_bitlen` needs: the merge history recorded in the fathers and in the heap tail. */
  ghost predicate TreeReady(h: seq<nat>, lo: nat, dad: seq<nat>, leaves: set<nat>, merges: seq<(nat, nat)>, desc: TreeDesc, maxCode: nat) {
    && desc.Valid() && Finished(leaves, desc.elems, merges) && FathersUp(dad, desc.elems, merges) && TailOrder(h, merges)
    && lo == HEAP_SIZE - 2 * |merges| - 1 && h[lo] == desc.elems + |merges| - 1
    && maxCode < desc.elems && (forall x :: x in leaves ==> x <= maxCode)
    && |leaves| < Pow2(desc.maxLength)
  }

  /** The lengths are fit for a code: every leaf has one within the limit, the counts agree,
      the Kraft sum is exactly one, and both totals have grown by the exact costs. */
  ghost predicate LensDone(dl: seq<nat>, bl: seq<nat>, leaves: set<nat>, desc: TreeDesc, f: seq<nat>, o: int, st: int, opt: nat, stat: nat) {
    && |dl| == |f|
    && CountsLens(bl, leaves, dl) && LeafLens(leaves, dl, desc.maxLength)
    && Sum(leaves, Shares(dl, desc.maxLength)) == Pow2(desc.maxLength)
    && opt == Wrap32(o + Sum(leaves, DynCosts(desc, f, dl)))
    && stat == Wrap32(st + Sum(leaves, StatCosts(desc, f)))
  }

  ghost function NodeExcess(dad: seq<nat>, merges: seq<(nat, nat)>, desc: TreeDesc): nat
    requires merges != []
  {
    Excess(dad, desc.elems + |merges| - 1, desc.maxLength, desc.elems, |merges|, 0)
  }

  /** What the first pass leaves behind: lengths, counts and costs of the leaves. */
  lemma AfterFirstPass(h: seq<nat>, lo: nat, dad: seq<nat>, leaves: set<nat>, merges: seq<(nat, nat)>, desc: TreeDesc, maxCode: nat,
                       f: seq<nat>, a: Acc, o: int, st: int)
    requires TreeReady(h, lo, dad, leaves, merges, desc, maxCode) && |f| == |dad|
    requires Passing(h, lo, |h|, dad, Depths(dad, desc.elems + |merges| - 1, desc.maxLength), leaves, desc, f, a, o, st)
    ensures |a.dl| == |f| && CountsLens(a.bl, leaves, a.dl) && LeafLens(leaves, a.dl, desc.maxLength)
    ensures a.opt == Wrap32(o + Sum(leaves, DynCosts(desc, f, a.dl))) && a.stat == Wrap32(st + Sum(leaves, StatCosts(desc, f)))
    ensures Sum(leaves, Shares(a.dl, desc.maxLength)) == Sum(leaves, Shares(Depths(dad, desc.elems + |merges| - 1, desc.maxLength), desc.maxLength))
    ensures forall x :: x in leaves ==> a.dl[x] == Depth(dad, desc.elems + |merges| - 1, desc.maxLength, x)
  {
    hide Sum, Wrap32, Passing, TreeOrder, CountsLens, Depths, Depth, Shares, DynCosts, StatCosts, LeafLens, TreeReady;
    ReadyOrder(h, lo, dad, leaves, merges, desc, maxCode);
    LensAfterPass(h, lo, dad, desc.elems + |merges| - 1, leaves, maxCode, desc, f, a, o, st);
  }

  lemma LensAfterPass(h: seq<nat>, lo: nat, dad: seq<nat>, root: nat, leaves: set<nat>, maxCode: nat, desc: TreeDesc,
                      f: seq<nat>, a: Acc, o: int, st: int)
    requires TreeOrder(h, lo, dad, root, leaves, maxCode) && |f| == |dad| && desc.maxLength >= 1
    requires Passing(h, lo, |h|, dad, Depths(dad, root, desc.maxLength), leaves, desc, f, a, o, st)
    ensures |a.dl| == |f| && CountsLens(a.bl, leaves, a.dl) && LeafLens(leaves, a.dl, desc.maxLength)
    ensures a.opt == Wrap32(o + Sum(leaves, DynCosts(desc, f, a.dl))) && a.stat == Wrap32(st + Sum(leaves, StatCosts(desc, f)))
    ensures Sum(leaves, Shares(a.dl, desc.maxLength)) == Sum(leaves, Shares(Depths(dad, root, desc.maxLength), desc.maxLength))
    ensures forall x :: x in leaves ==> x < |a.dl| && a.dl[x] == Depth(dad, root, desc.maxLength, x)
  {
    hide Sum, Wrap32, Passing, TreeOrder, CountsLens, Depths, Depth, Shares, DynCosts, StatCosts, LeafLens;
    var lens := Depths(dad, root, desc.maxLength);
    PassingDone(h, lo, dad, root, leaves, maxCode, lens, desc, f, a, o, st);
    LeafDepths(h, lo, dad, root, leaves, maxCode, desc.maxLength);
    SameLens(leaves, lens, a.dl, a.bl, desc, f);
  }

  /** Symbols that are no leaves keep what they had. */
  lemma AfterFirstPassUnused(h: seq<nat>, lo: nat, dad: seq<nat>, leaves: set<nat>, merges: seq<(nat, nat)>, desc: TreeDesc, maxCode: nat,
                             f: seq<nat>, a: Acc, o: int, st: int)
    requires TreeReady(h, lo, dad, leaves, merges, desc, maxCode) && |f| == |dad|
    requires Passing(h, lo, |h|, dad, Depths(dad, desc.elems + |merges| - 1, desc.maxLength), leaves, desc, f, a, o, st)
    ensures desc.elems <= |a.dl| && forall x :: 0 <= x < desc.elems && x !in leaves ==> a.dl[x] == dad[x]
  {
    hide Sum, Wrap32, Passing, TreeOrder, CountsLens, Depths, Depth, Shares, DynCosts, StatCosts, TreeReady;
    ReadyWider(h, lo, dad, leaves, merges, desc, maxCode);
    ReadyOrder(h, lo, dad, leaves, merges, desc, desc.elems - 1);
    var root := desc.elems + |merges| - 1;
    PassingDone(h, lo, dad, root, leaves, desc.elems - 1, Depths(dad, root, desc.maxLength), desc, f, a, o, st);
  }

  /** How far the first pass overfills the code space. */
  lemma FirstPassExcess(h: seq<nat>, lo: nat, dad: seq<nat>, leaves: set<nat>, merges: seq<(nat, nat)>, desc: TreeDesc, maxCode: nat,
                        bl: seq<nat>, dl: seq<nat>)
    requires TreeReady(h, lo, dad, leaves, merges, desc, maxCode) && |dl| == |dad| && merges != []
    requires |bl| == MAX_BITS + 1 && CountsLens(bl, leaves, dl) && LeafLens(leaves, dl, desc.maxLength)
    requires forall x :: x in leaves ==> dl[x] == Depth(dad, desc.elems + |merges| - 1, desc.maxLength, x)
    requires Sum(leaves, Shares(dl, desc.maxLength)) == Sum(leaves, Shares(Depths(dad, desc.elems + |merges| - 1, desc.maxLength), desc.maxLength))
    ensures OverCount(h, lo, |h|, dad, Depths(dad, desc.elems + |merges| - 1, desc.maxLength), desc.maxLength) == 2 * NodeExcess(dad, merges, desc)
    ensures Overfull(bl, desc.maxLength, NodeExcess(dad, merges, desc), |leaves|)
    ensures Sum(leaves, Shares(dl, desc.maxLength)) == Pow2(desc.maxLength) + NodeExcess(dad, merges, desc)
  {
    hide Sum, CntKraft, CntTotal, Excess, OverCount, Live, CountsLens, Depth, Shares, FathersUp, History;
    var elems, max := desc.elems, desc.maxLength;
    OverIsTwiceExcess(h, lo, dad, elems, merges, max, 0);
    CountsOfLeaves(bl, leaves, dl, max);
    CutDepthsKraft(leaves, dad, elems, merges, max, 0);
    FullDepthCount(leaves, dad, elems, merges, max, 0);
    LiveZero(leaves, elems, merges);
    FullCount(bl, leaves, dl, Depths(dad, elems + |merges| - 1, max), max);
  }

  lemma FullCount(bl: seq<nat>, s: set<nat>, dl: seq<nat>, lens: seq<nat>, max: nat)
    requires CountsLens(bl, s, dl) && max <= MAX_BITS && |dl| == |lens| && forall x :: x in s ==> x < |dl| && dl[x] == lens[x]
    ensures bl[max] == Sum(s, Ind(lens, max))
  {
    SumEq(s, Ind(lens, max), s, Ind(dl, max));
  }

  /** Lengths that agree on the leaves give the same sums over the leaves. */
  lemma SameLens(s: set<nat>, lens: seq<nat>, dl: seq<nat>, bl: seq<nat>, desc: TreeDesc, f: seq<nat>)
    requires |lens| == |dl| == |f| && CountsLens(bl, s, lens) && LeafLens(s, lens, desc.maxLength)
    requires forall x :: x in s ==> x < |dl| && dl[x] == lens[x]
    ensures CountsLens(bl, s, dl) && LeafLens(s, dl, desc.maxLength)
    ensures Sum(s, DynCosts(desc, f, lens)) == Sum(s, DynCosts(desc, f, dl))
    ensures Sum(s, Shares(lens, desc.maxLength)) == Sum(s, Shares(dl, desc.maxLength))
  {
    hide Sum;
    SumEq(s, DynCosts(desc, f, lens), s, DynCosts(desc, f, dl));
    SumEq(s, Shares(lens, desc.maxLength), s, Shares(dl, desc.maxLength));
    forall l | 0 <= l <= MAX_BITS ensures bl[l] == Sum(s, Ind(dl, l)) {
      SumEq(s, Ind(lens, l), s, Ind(dl, l));
    }
  }

  lemma PassingDone(h: seq<nat>, lo: nat, dad: seq<nat>, root: nat, leaves: set<nat>, maxCode: nat, lens: seq<nat>,
                    desc: TreeDesc, f: seq<nat>, a: Acc, o: int, st: int)
    requires TreeOrder(h, lo, dad, root, leaves, maxCode) && |f| == |dad|
    requires lens == Depths(dad, root, desc.maxLength) && Passing(h, lo, |h|, dad, lens, leaves, desc, f, a, o, st)
    ensures a.overflow == OverCount(h, lo, |h|, dad, lens, desc.maxLength)
    ensures |a.dl| == |lens| == |f| && CountsLens(a.bl, leaves, lens)
    ensures a.opt == Wrap32(o + Sum(leaves, DynCosts(desc, f, lens))) && a.stat == Wrap32(st + Sum(leaves, StatCosts(desc, f)))
    ensures forall x :: x in leaves ==> x < |a.dl| && a.dl[x] == lens[x] == Depth(dad, root, desc.maxLength, x)
    ensures maxCode < |a.dl| && forall x :: 0 <= x <= maxCode && x !in leaves ==> a.dl[x] == dad[x]
  {
    hide Sum, Wrap32, DynCosts, StatCosts, Depth, OverCount, Visited;
    PassedLeaves(h, lo, dad, root, leaves, maxCode, lens, a.dl);
    assert leaves * Visited(h, lo, |h|) == leaves;
  }

  lemma LiveZero(leaves: set<nat>, elems: nat, merges: seq<(nat, nat)>)
    ensures Live(leaves, elems, merges, 0) == leaves
  {
  }

  lemma PassedLeaves(h: seq<nat>, lo: nat, dad: seq<nat>, root: nat, leaves: set<nat>, maxCode: nat, lens: seq<nat>, dl: seq<nat>)
    requires TreeOrder(h, lo, dad, root, leaves, maxCode) && LensUpTo(dl, h, lo, |h|, dad, lens)
    ensures forall x :: x in leaves ==> x < |dl| && dl[x] == lens[x] && x in Visited(h, lo, |h|)
    ensures forall x :: 0 <= x <= maxCode && x !in leaves ==> dl[x] == dad[x]
  {
  }

  lemma LeafDepths(h: seq<nat>, lo: nat, dad: seq<nat>, root: nat, leaves: set<nat>, maxCode: nat, max: nat)
    requires TreeOrder(h, lo, dad, root, leaves, maxCode) && max >= 1
    ensures LeafLens(leaves, Depths(dad, root, max), max)
  {
    forall x | x in leaves ensures x < |dad| && 1 <= Depth(dad, root, max, x) <= max {
      assert x in Visited(h, lo, |h|);
      var j :| lo <= j < |h| && h[j] == x;
      assert j != lo;
    }
  }

  method GenBitlen(heap: array<nat>, heapMax: nat, fc: array<nat>, dl: array<nat>, blCount: array<nat>, desc: TreeDesc, maxCode: nat,
                   optLen: nat, staticLen: nat, ghost leaves: set<nat>, ghost merges: seq<(nat, nat)>, ghost o: int, ghost st: int)
    returns (optLen': nat, staticLen': nat)
    requires heap != dl && heap != blCount && fc != dl && fc != blCount && dl != blCount
    requires fc.Length == dl.Length && blCount.Length == MAX_BITS + 1
    requires TreeReady(heap[..], heapMax, dl[..], leaves, merges, desc, maxCode)
    requires optLen == Wrap32(o) && staticLen == Wrap32(st)
    modifies dl, blCount
    ensures LensDone(dl[..], blCount[..], leaves, desc, fc[..], o, st, optLen', staticLen')
    ensures forall x :: 0 <= x < desc.elems && x !in leaves ==> x < dl.Length && dl[x] == old(dl[..])[x]
    ensures merges != [] && NodeExcess(old(dl[..]), merges, desc) > 0 ==> exists x :: x in leaves && x < dl.Length && dl[x] == desc.maxLength
    ensures merges != [] && NodeExcess(old(dl[..]), merges, desc) > 0 ==>
              Rising(heap[..], heapMax, leaves, dl[..])
    ensures merges != [] && NodeExcess(old(dl[..]), merges, desc) > 0 ==>
              RepairedFrom(leaves, Depths(old(dl[..]), desc.elems + |merges| - 1, desc.maxLength), dl[..], desc.maxLength, NodeExcess(old(dl[..]), merges, desc))
    ensures merges != [] && NodeExcess(old(dl[..]), merges, desc) == 0 ==>
              forall x :: x in leaves ==> x < dl.Length && dl[x] == Depth(old(dl[..]), desc.elems + |merges| - 1, desc.maxLength, x)
  {
    hide Passing, CntKraft, CntTotal, Sum, Wrap32, CountsLens, NodeExcess, Handing, TreeOrder, Shares, DynCosts, StatCosts, Overfull,
         TreeReady, LeafLens, Depths, Depth, OverCount, Rising, RepairedFrom;
    ghost var h: seq<nat>, f: seq<nat>, dad: seq<nat> := heap[..], fc[..], dl[..];
    ghost var root := desc.elems + |merges| - 1;
    ReadyOrder(h, heapMax, dad, leaves, merges, desc, maxCode);
    var overflow: nat;
    overflow, optLen', staticLen' := FirstPass(heap, heapMax, fc, dl, blCount, desc, maxCode, optLen, staticLen, root, leaves, o, st);
    AfterFirstPass(h, heapMax, dad, leaves, merges, desc, maxCode, f, Acc(dl[..], blCount[..], overflow, optLen', staticLen'), o, st);
    AfterFirstPassUnused(h, heapMax, dad, leaves, merges, desc, maxCode, f, Acc(dl[..], blCount[..], overflow, optLen', staticLen'), o, st);
    FirstPassExcess(h, heapMax, dad, leaves, merges, desc, maxCode, blCount[..], dl[..]);
    PassOverflow(h, heapMax, dad, leaves, desc, f, Acc(dl[..], blCount[..], overflow, optLen', staticLen'), o, st, Depths(dad, root, desc.maxLength));
    if overflow == 0 {
      return;
    }
    ghost var bl: seq<nat>, dl1: seq<nat> := blCount[..], dl[..];
    Repair(blCount, desc.maxLength, overflow, |leaves|);
    optLen' := HandOutAll(heap, heapMax, fc, dl, blCount, desc, maxCode, optLen', dad, root, leaves, o);
    SomeAtLimit(blCount[..], leaves, dl[..], desc.maxLength);
    IsRepaired(leaves, dad, root, dl1, dl[..], bl, blCount[..], desc.maxLength, overflow / 2);
  }

  /** The counts of lens come from those of `cut` by the repair. */
  ghost predicate RepairedFrom(leaves: set<nat>, cut: seq<nat>, lens: seq<nat>, max: nat, excess: nat) {
    exists bl: seq<nat> :: CountsLens(bl, leaves, cut) && CountsLens(RepairAll(bl, max, excess), leaves, lens) && Overfull(bl, max, excess, |leaves|)
  }

  lemma IsRepaired(leaves: set<nat>, dad: seq<nat>, root: nat, dl1: seq<nat>, dl: seq<nat>, bl: seq<nat>, bl': seq<nat>, max: nat, excess: nat)
    requires CountsLens(bl, leaves, dl1) && CountsLens(bl', leaves, dl) && bl' == RepairAll(bl, max, excess) && Overfull(bl, max, excess, |leaves|)
    requires |dad| == |dl1| && forall x :: x in leaves ==> x < |dl1| && dl1[x] == Depth(dad, root, max, x)
    ensures RepairedFrom(leaves, Depths(dad, root, max), dl, max, excess)
  {
    hide Sum, RepairAll, Overfull, Depth;
    var cut := Depths(dad, root, max);
    forall l | 0 <= l <= MAX_BITS ensures bl[l] == Sum(leaves, Ind(cut, l)) {
      SumEq(leaves, Ind(cut, l), leaves, Ind(dl1, l));
    }
    assert CountsLens(bl, leaves, cut);
  }

  /** A length that is counted is the length of some leaf. */
  lemma SomeAtLimit(bl: seq<nat>, s: set<nat>, lens: seq<nat>, max: nat)
    requires CountsLens(bl, s, lens) && LeafLens(s, lens, max) && max <= MAX_BITS && bl[max] > 0
    ensures exists x :: x in s && x < |lens| && lens[x] == max
  {
    if forall x :: x in s && x < |lens| ==> lens[x] != max { SumNone(s, Ind(lens, max)); }
  }

  lemma PassOverflow(h: seq<nat>, lo: nat, dad: seq<nat>, leaves: set<nat>, desc: TreeDesc, f: seq<nat>, a: Acc, o: int, st: int, lens: seq<nat>)
    requires lo < |h| && Passing(h, lo, |h|, dad, lens, leaves, desc, f, a, o, st)
    ensures a.overflow == OverCount(h, lo, |h|, dad, lens, desc.maxLength)
  {
  }

  /** The symbols above the largest used one are no leaves either. */
  lemma ReadyWider(h: seq<nat>, lo: nat, dad: seq<nat>, leaves: set<nat>, merges: seq<(nat, nat)>, desc: TreeDesc, maxCode: nat)
    requires TreeReady(h, lo, dad, leaves, merges, desc, maxCode)
    ensures desc.elems > 0 && TreeReady(h, lo, dad, leaves, merges, desc, desc.elems - 1)
  {
  }

  lemma ReadyOrder(h: seq<nat>, lo: nat, dad: seq<nat>, leaves: set<nat>, merges: seq<(nat, nat)>, desc: TreeDesc, maxCode: nat)
    requires TreeReady(h, lo, dad, leaves, merges, desc, maxCode)
    ensures TreeOrder(h, lo, dad, desc.elems + |merges| - 1, leaves, maxCode)
    ensures merges != [] && desc.Valid() && lo < |h| && maxCode < desc.elems
  {
    OrderFromHistory(h, lo, dad, leaves, desc.elems, merges, maxCode);
  }

  lemma OverfullSizes(bl: seq<nat>, max: nat, total: nat)
    requires Overfull(bl, max, 0, total)
    ensures |bl| == MAX_BITS + 1 && 1 <= max <= MAX_BITS && CntKraft(bl, max, max) == Pow2(max)
  {
  }

  lemma OrderSizes(h: seq<nat>, lo: nat, dad: seq<nat>, root: nat, leaves: set<nat>, maxCode: nat)
    requires TreeOrder(h, lo, dad, root, leaves, maxCode)
    ensures lo < |h| && maxCode < |dad|
  {
  }

  /** Hands out all lengths anew, from the longest to the shortest. */
  method HandOutAll(heap: array<nat>, heapMax: nat, fc: array<nat>, dl: array<nat>, blCount: array<nat>, desc: TreeDesc, maxCode: nat,
                    optLen: nat, ghost dad: seq<nat>, ghost root: nat, ghost leaves: set<nat>, ghost o: int)
    returns (optLen': nat)
    requires heap != dl && fc != dl && blCount != dl && fc.Length == dl.Length == |dad|
    requires TreeOrder(heap[..], heapMax, dad, root, leaves, maxCode)
    requires Overfull(blCount[..], desc.maxLength, 0, |leaves|)
    requires optLen == Wrap32(o + Sum(leaves, DynCosts(desc, fc[..], dl[..])))
    modifies dl
    ensures CountsLens(blCount[..], leaves, dl[..]) && LeafLens(leaves, dl[..], desc.maxLength)
    ensures Sum(leaves, Shares(dl[..], desc.maxLength)) == Pow2(desc.maxLength)
    ensures forall x :: 0 <= x < dl.Length && x !in leaves ==> dl[x] == old(dl[..])[x]
    ensures optLen' == Wrap32(o + Sum(leaves, DynCosts(desc, fc[..], dl[..])))
    ensures Rising(heap[..], heapMax, leaves, dl[..])
  {
    hide CntKraft, CntTotal, Sum, Wrap32, Handing, Shares, DynCosts, CountsLens, TreeOrder, Overfull, LeafLens, Rising;
    OverfullSizes(blCount[..], desc.maxLength, |leaves|);
    OrderSizes(heap[..], heapMax, dad, root, leaves, maxCode);
    ghost var hs: seq<nat>, f: seq<nat>, dl0: seq<nat>, bl: seq<nat> := heap[..], fc[..], dl[..], blCount[..];
    ghost var max := desc.maxLength;
    var h := heap.Length;
    optLen' := optLen;
    var bits := desc.maxLength;
    HandingStart(hs, leaves, bl, max, |leaves|, desc, f, dl0, optLen, o);
    while true
      invariant 1 <= bits <= max && heapMax < h <= heap.Length
      invariant heap[..] == hs && fc[..] == f && blCount[..] == bl
      invariant Handing(hs, h, leaves, bl, max, bits, bl[bits], desc, f, dl0, Hand(dl[..], optLen'), o)
      decreases bits
    {
      h, optLen' := HandOut(heap, h, fc, dl, maxCode, bits, blCount[bits], optLen', heapMax, dad, root, leaves, bl, max, desc, dl0, o);
      if bits == 1 {
        break;
      }
      HandingNext(hs, h, leaves, bl, max, bits, desc, f, dl0, Hand(dl[..], optLen'), o);
      bits := bits - 1;
    }
    HandingDone(hs, heapMax, h, dad, root, leaves, maxCode, bl, max, desc, f, dl0, Hand(dl[..], optLen'), o);
    CountsOfLeaves(bl, leaves, dl[..], max);
  }
}
