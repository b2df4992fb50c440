/** Sums over the members of a finite set of indices. */
module Sums {

  /** Sum of `g[i]` over the indices i of `g` that lie in `s`. */
  ghost function Sum(s: set<nat>, g: seq<int>): int {
    if g == [] then 0
    else Sum(s, g[..|g| - 1]) + if |g| - 1 in s then g[|g| - 1] else 0
  }

  lemma {:induction false} SumEq(s: set<nat>, g: seq<int>, s': set<nat>, g': seq<int>)
    requires |g| == |g'|
    requires forall i :: 0 <= i < |g| ==> (i in s <==> i in s')
    requires forall i :: 0 <= i < |g| && i in s ==> g[i] == g'[i]
    ensures Sum(s, g) == Sum(s', g')
  {
    if g != [] {
      var n := |g| - 1;
      SumEq(s, g[..n], s', g'[..n]);
      assert n in s ==> g[n] == g'[n];
    }
  }

  lemma {:induction false} SumNonNeg(s: set<nat>, g: seq<int>)
    requires forall i :: 0 <= i < |g| && i in s ==> g[i] >= 0
    ensures Sum(s, g) >= 0
  {
    if g != [] {
      var n := |g| - 1;
      SumNonNeg(s, g[..n]);
      assert n in s ==> g[n] >= 0;
    }
  }

  lemma {:induction false} SumEmpty(g: seq<int>)
    ensures Sum({}, g) == 0
  {
    if g != [] { SumEmpty(g[..|g| - 1]); }
  }

  lemma {:induction false} SumInsert(s: set<nat>, x: nat, g: seq<int>)
    requires x < |g| && x !in s
    ensures Sum(s + {x}, g) == Sum(s, g) + g[x]
  {
    var n := |g| - 1;
    if x == n {
      SumEq(s + {x}, g[..n], s, g[..n]);
    } else {
      SumInsert(s, x, g[..n]);
    }
  }

  lemma SumRemove(s: set<nat>, x: nat, g: seq<int>)
    requires x < |g| && x in s
    ensures Sum(s - {x}, g) == Sum(s, g) - g[x]
  {
    SumInsert(s - {x}, x, g);
    assert s - {x} + {x} == s;
  }

  lemma SumSingle(x: nat, g: seq<int>)
    requires x < |g|
    ensures Sum({x}, g) == g[x]
  {
    SumEmpty(g);
    SumInsert({}, x, g);
    assert {} + {x} == {x};
  }

  /** Changing one member's term. */
  lemma SumUpdate(s: set<nat>, x: nat, g: seq<int>, g': seq<int>)
    requires x < |g| == |g'| && x in s
    requires forall i :: 0 <= i < |g| && i in s && i != x ==> g'[i] == g[i]
    ensures Sum(s, g') == Sum(s, g) - g[x] + g'[x]
  {
    SumRemove(s, x, g);
    SumRemove(s, x, g');
    SumEq(s - {x}, g, s - {x}, g');
  }

  lemma {:induction false} SumAdd(s: set<nat>, g: seq<int>, h: seq<int>, k: seq<int>)
    requires |g| == |h| == |k|
    requires forall i :: 0 <= i < |g| && i in s ==> k[i] == g[i] + h[i]
    ensures Sum(s, k) == Sum(s, g) + Sum(s, h)
  {
    if g != [] {
      var n := |g| - 1;
      SumAdd(s, g[..n], h[..n], k[..n]);
      assert n in s ==> k[n] == g[n] + h[n];
    }
  }

  lemma {:induction false} SumScale(s: set<nat>, g: seq<int>, c: int, k: seq<int>)
    requires |g| == |k|
    requires forall i :: 0 <= i < |g| && i in s ==> k[i] == c * g[i]
    ensures Sum(s, k) == c * Sum(s, g)
  {
    if g != [] {
      var n := |g| - 1;
      SumScale(s, g[..n], c, k[..n]);
      assert n in s ==> k[n] == c * g[n];
      Distribute(c, Sum(s, g[..n]), if n in s then g[n] else 0);
    }
  }

  lemma Distribute(c: int, a: int, b: int)
    ensures c * (a + b) == c * a + c * b
  {
  }

  /** A sum of even terms is even. */
  lemma {:induction false} SumEven(s: set<nat>, g: seq<int>)
    requires forall i :: 0 <= i < |g| && i in s ==> g[i] % 2 == 0
    ensures Sum(s, g) % 2 == 0
  {
    if g != [] {
      var n := |g| - 1;
      SumEven(s, g[..n]);
      assert n in s ==> g[n] % 2 == 0;
    }
  }

  /** Splitting the index set in two. */
  lemma {:induction false} SumSplit(s: set<nat>, a: set<nat>, b: set<nat>, g: seq<int>)
    requires a !! b && s == a + b
    ensures Sum(s, g) == Sum(a, g) + Sum(b, g)
  {
    if g != [] { SumSplit(s, a, b, g[..|g| - 1]); }
  }
}
