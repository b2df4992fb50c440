/** The factorizer itself: `isqrt`, `isqrt_odd`, `print_w` and `factorize`. */
module Factorizing {
  import opened Bits
  import opened Wheel
  import opened Factor

  // ----- The integer square root -----

  ghost predicate IsRoot(s: nat, n: nat) {
    s * s <= n < (s + 1) * (s + 1)
  }

  /** One more pair of bits. */
  lemma RootStep(x: nat, n: nat)
    requires IsRoot(x, n / 4)
    ensures IsRoot(if (2 * x + 1) * (2 * x + 1) > n then 2 * x else 2 * x + 1, n)
  {
    var q := n / 4;
    assert (2 * x) * (2 * x) == 4 * (x * x);
    assert (2 * x + 2) * (2 * x + 2) == 4 * ((x + 1) * (x + 1));
    assert 4 * q <= n < 4 * (q + 1);
  }

  lemma ShrTwo(n: nat, shift: nat)
    ensures Shr(n, shift + 2) == Shr(n, shift) / 4
  {
    ShrShr(n, shift);
    ShrShr(n, shift + 1);
  }

  lemma RootSmall(s: nat, n: nat, bits: nat)
    requires IsRoot(s, n) && n < Pow2(2 * bits)
    ensures s < Pow2(bits)
  {
    Pow2Add(bits, bits);
    if s >= Pow2(bits) { MulGrows(Pow2(bits), s, Pow2(bits), s); }
  }

  method Isqrt(n: nat) returns (x: nat)
    requires n < TWO64
    ensures IsRoot(x, n) && x < TWO32
  {
    hide Pow2, Shr, IsRoot;
    var shift: int := 64 - 2;
    x := 0;
    TopBits(n);
    while shift >= 0
      invariant -2 <= shift <= 62 && shift % 2 == 0 && IsRoot(x, Shr(n, shift + 2))
      decreases shift
    {
      ShrTwo(n, shift);
      RootStep(x, Shr(n, shift));
      x := 2 * x + 1;
      if x * x > Shr(n, shift) {
        x := x - 1;
      }
      shift := shift - 2;
    }
    ShrNone(n);
    HalfWidth(x, n);
  }

  lemma TopBits(n: nat)
    requires n < TWO64
    ensures IsRoot(0, Shr(n, 64))
  {
    hide Shr;
    Pow2Of64();
    LowShrUnique(n, 64, 0, n);
  }

  lemma ShrNone(n: nat)
    ensures Shr(n, 0) == n
  {
  }

  lemma HalfWidth(x: nat, n: nat)
    requires IsRoot(x, n) && n < TWO64
    ensures x < TWO32
  {
    hide Pow2, IsRoot;
    Pow2Values();
    Pow2Of64();
    RootSmall(x, n, 32);
  }

  // ----- The largest divisor to try -----

  /** r is the root s, or s - 1 where s is even. */
  ghost predicate OddRoot(r: nat, s: nat, n: nat) {
    IsRoot(s, n) && s * s != n && r >= 1 && (r == s || (s % 2 == 0 && r == s - 1))
  }

  lemma MakeOdd(s: nat)
    requires s >= 1
    ensures Or(s - 1, 1) == if s % 2 == 1 then s else s - 1
  {
    OrOne(s - 1);
  }

  lemma OrOne(v: nat)
    ensures Or(v, 1) == if v % 2 == 0 then v + 1 else v
  {
    assert Or(v, 1) == 1 + 2 * Or(v / 2, 0);
    OrNone(v / 2);
  }

  lemma {:induction false} OrNone(v: nat)
    ensures Or(v, 0) == v
  {
    if v > 0 { OrNone(v / 2); }
  }

  /** When all divisors up to the odd root have been tried, what is left is prime. */
  lemma RootTried(n: nat, r: nat, s: nat, factor: nat)
    requires OddRoot(r, s, n) && factor >= r && factor >= 2 && Rough(n, factor + 1)
    ensures Prime(n)
  {
    hide Prime, Divides;
    assert n != 0 && n != 1 by { SmallRoots(s, n); }
    forall d | 2 <= d < s + 1 ensures !Divides(d, n) {
      if d > factor && Divides(d, n) {
        assert d == s;
        EvenDivides(s);
        DividesTrans(2, s, n);
      }
    }
    PrimeByBound(n, s + 1);
  }

  lemma SmallRoots(s: nat, n: nat)
    requires IsRoot(s, n) && s * s != n
    ensures n >= 2
  {
    if s >= 2 { MulGrows(2, s, 2, s); }
  }

  lemma EvenDivides(s: nat)
    requires s % 2 == 0
    ensures Divides(2, s)
  {
  }

  /** Past the largest 32-bit divisor there is nothing left to try. */
  lemma OverflowTried(n: nat, to: nat)
    requires 2 <= n < TWO64 && to >= TWO32 && Rough(n, to)
    ensures Prime(n)
  {
    MulGrows(TWO32, to, TWO32, to);
    PrimeByBound(n, to);
  }

  /** How far the count may double: n to the power k stays below 2 to the power 64. */
  ghost predicate CountOk(n: nat, k: nat) {
    k >= 1 && k <= 128 && (n >= 2 ==> Pow(n, k) < TWO64)
  }

  lemma {:induction false} PowTwo(k: nat)
    ensures Pow(2, k) == Pow2(k)
  {
    if k > 0 { PowTwo(k - 1); }
  }

  lemma CountSmall(n: nat, k: nat)
    requires CountOk(n, k) && n >= 2
    ensures k < 64
  {
    hide Pow, Pow2;
    if k >= 64 {
      PowGrows(2, n, k);
      PowTwo(k);
      Pow2Mono(64, k);
      Pow2Of64();
    }
  }

  lemma CountSquare(s: nat, k: nat)
    requires CountOk(s * s, k) && s >= 2
    ensures CountOk(s, 2 * k)
  {
    hide Pow;
    assert s * s >= 2 by { MulGrows(2, s, 1, s); }
    CountSmall(s * s, k);
    PowSquare(s, k);
  }

  lemma CountDivide(n: nat, m: nat, k: nat)
    requires CountOk(n, k) && m <= n && n >= 2
    ensures CountOk(m, k) && k < 64
  {
    hide Pow;
    CountSmall(n, k);
    PowGrows(m, n, k);
  }

  lemma CountOnce(n: nat)
    requires n < TWO64
    ensures CountOk(n, 1)
  {
    assert Pow(n, 1) == n * Pow(n, 0);
  }

  lemma FactorsOnce(fs: seq<nat>, n: nat)
    requires Factors(fs, n, 1)
    ensures Sorted(fs) && (forall i :: 0 <= i < |fs| ==> Prime(fs[i])) && Product(fs) == n
  {
    hide Prime, Sorted, Product;
    assert Pow(n, 1) == n * Pow(n, 0);
  }

  class Factorizer {
    const wheelTab: seq<nat>
    /** `square_count`, an 8-bit number: how often each factor is printed. */
    var squareCount: nat
    /** The factors printed, and the number of line ends. */
    var out: seq<nat>
    var lines: nat

    ghost predicate Valid() {
      wheelTab == Table()
    }

    constructor ()
      ensures Valid() && squareCount == 1 && out == [] && lines == 0
    {
      var tab := UnpackWheel();
      wheelTab := tab;
      squareCount, out, lines := 1, [], 0;
    }

    method PrintW(n: nat)
      requires squareCount >= 1
      modifies this`out
      ensures out == old(out) + Times(n, squareCount)
    {
      var rep := squareCount;
      while rep != 0
        invariant 0 <= rep <= squareCount && out == old(out) + Times(n, squareCount - rep)
      {
        out := out + [n];
        rep := rep - 1;
      }
    }

    /** The odd root, or 0 if n was a square, which has then been factored. */
    method IsqrtOdd(n: nat) returns (r: nat, ghost s: nat, ghost fs: seq<nat>)
      requires Valid() && 1 <= n < TWO64 && CountOk(n, squareCount) && (n == 1 ==> squareCount <= 64)
      modifies this
      ensures r < TWO32
      ensures r == 0 ==> Factors(fs, n, old(squareCount)) && out == old(out) + fs && lines == old(lines) + 1
      ensures r != 0 ==> OddRoot(r, s, n) && out == old(out) && lines == old(lines) && squareCount == old(squareCount)
      decreases if n < 4 then 1 else n, 0
    {
      hide Factors, Pow;
      fs := [];
      var root := Isqrt(n);
      s := root;
      RootBounds(root, n);
      if root * root == n {
        ghost var k := squareCount;
        if root >= 2 {
          CountSquare(root, k);
          CountSmall(n, k);
        }
        squareCount := 2 * squareCount % 256;
        fs := Factorize(root);
        SquareFactors(root, k, fs);
        return 0, s, fs;
      }
      MakeOdd(root);
      r := Or(root - 1, 1);
    }

    /** Main result: prints the prime factors of n in order, each `squareCount` times as often as
        it divides n, and ends the line. */
    method Factorize(n: nat) returns (ghost fs: seq<nat>)
      requires Valid() && n < TWO64 && CountOk(n, squareCount)
      modifies this
      ensures out == old(out) + fs && lines == old(lines) + 1
      ensures n >= 1 ==> Factors(fs, n, old(squareCount))
      ensures n == 0 ==> fs == []
      decreases if n < 4 then 0 else n, 1
    {
      hide Factors, Pow, Prime;
      if n < 4 {
        fs := PrintLast(n);
        return;
      }
      ghost var k := squareCount;
      CountSmall(n, k);
      var maxFactor;
      ghost var s;
      maxFactor, s, fs := IsqrtOdd(n);
      if maxFactor == 0 {
        return;
      }
      fs := TryDivisors(n, maxFactor, s);
    }

    /** `factorize_numstr` for a number of the wide type: the primes printed multiply to it. */
    method FactorizeNumber(n: nat) returns (ghost fs: seq<nat>)
      requires Valid() && n < TWO64
      modifies this
      ensures out == old(out) + fs && lines == old(lines) + 1
      ensures n >= 1 ==> Sorted(fs) && (forall i :: 0 <= i < |fs| ==> Prime(fs[i])) && Product(fs) == n
      ensures n == 0 ==> fs == []
    {
      hide Prime, Sorted, Product, Factors, CountOk;
      squareCount := 1;
      CountOnce(n);
      fs := Factorize(n);
      if n >= 1 { FactorsOnce(fs, n); }
    }

    /** The end of the line: what is left is one, or a prime. */
    method PrintLast(n: nat) returns (ghost fs: seq<nat>)
      requires squareCount >= 1 && (n >= 4 ==> Prime(n))
      modifies this`out, this`lines
      ensures out == old(out) + fs && lines == old(lines) + 1
      ensures n >= 1 ==> Factors(fs, n, squareCount)
      ensures n == 0 ==> fs == []
    {
      hide Factors;
      fs := [];
      SmallPrimes();
      if n > 1 {
        PrintW(n);
        fs := Times(n, squareCount);
        PrimeAlone(n, squareCount);
      } else {
        OneAlone(squareCount);
      }
      lines := lines + 1;
    }

    /** The loop over the wheel. */
    method TryDivisors(n0: nat, maxFactor0: nat, ghost s0: nat) returns (ghost fs: seq<nat>)
      requires Valid() && 4 <= n0 < TWO64 && CountOk(n0, squareCount) && OddRoot(maxFactor0, s0, n0) && maxFactor0 < TWO32
      modifies this
      ensures out == old(out) + fs && lines == old(lines) + 1 && Factors(fs, n0, old(squareCount))
      decreases n0, 0, 1
    {
      hide Factors, Pow, Prime, Trial, Rough, AtWheel, Table, OddRoot;
      ghost var k := squareCount;
      var n: nat, maxFactor: nat, factor: nat, w: nat := n0, maxFactor0, 2, 0;
      ghost var pre: seq<nat>, s: nat, m: nat := [], s0, 0;
      TrialStart(n0, k);
      WheelStart();
      fs := [];
      while true
        invariant squareCount == k && out == old(out) + pre && lines == old(lines) && 2 <= factor < TWO32 && w < WHEEL_SIZE
        invariant n <= n0 && CountOk(n, k) && Trial(n0, k, n, pre, factor) && AtWheel(factor, w, m)
        invariant OddRoot(maxFactor, s, n) && maxFactor < TWO32
        decreases TWO32 - factor
      {
        var squared;
        n, maxFactor, squared, pre, s, fs := DivideOut(n0, n, factor, maxFactor, old(out), pre, s);
        if squared {
          return;
        }
        Untried(n0, k, n, pre, factor);
        WheelStep(n, factor, w, m);
        if factor >= maxFactor {
          RootTried(n, maxFactor, s, factor);
          break;
        }
        var fw := Wrap32(factor + wheelTab[w]);
        if fw < factor {
          SmallLeft(n, maxFactor, s);
          OverflowTried(n, factor + wheelTab[w]);
          break;
        }
        assert fw == factor + wheelTab[w];
        TrialNext(n0, k, n, pre, factor, fw);
        factor := fw;
        w := w + 1;
        if w >= WHEEL_SIZE {
          w := WHEEL_START;
          m := m + 1;
        }
      }
      ghost var rest := PrintLast(n);
      TrialFinish(n0, k, n, pre, factor, rest);
      fs := pre + rest;
      AppendAssoc(old(out), pre, rest);
    }

    /** Divides by one divisor as often as possible.  A square that turns up on the way has been
        factored already. */
    method DivideOut(ghost n0: nat, n1: nat, factor: nat, maxFactor1: nat, ghost base: seq<nat>, ghost pre1: seq<nat>, ghost s1: nat)
      returns (n: nat, maxFactor: nat, squared: bool, ghost pre: seq<nat>, ghost s: nat, ghost fs: seq<nat>)
      requires Valid() && n1 <= n0 && 4 <= n0 < TWO64 && CountOk(n1, squareCount) && out == base + pre1 && factor >= 2
      requires Trial(n0, squareCount, n1, pre1, factor) && OddRoot(maxFactor1, s1, n1) && maxFactor1 < TWO32
      modifies this
      ensures squared ==> out == base + fs && Factors(fs, n0, old(squareCount)) && lines == old(lines) + 1
      ensures !squared ==> out == base + pre && lines == old(lines) && squareCount == old(squareCount)
      ensures !squared ==> n <= n0 && CountOk(n, squareCount) && Trial(n0, squareCount, n, pre, factor) && !Divides(factor, n)
      ensures !squared ==> OddRoot(maxFactor, s, n) && maxFactor < TWO32
      decreases n0, 0, 0
    {
      hide Factors, Trial, OddRoot, Divides, Quot, CountOk, Times;
      ghost var k := squareCount;
      n, maxFactor, squared, pre, s, fs := n1, maxFactor1, false, pre1, s1, [];
      while Divides(factor, n)
        invariant squareCount == k && lines == old(lines) && out == base + pre && n <= n0 && CountOk(n, k)
        invariant Trial(n0, k, n, pre, factor) && OddRoot(maxFactor, s, n) && maxFactor < TWO32
        decreases n
      {
        DivideStep(n0, k, n, pre, factor);
        AppendAssoc(base, pre, Times(factor, k));
        n := Quot(n, factor);
        PrintW(factor);
        pre := pre + Times(factor, k);
        ghost var rest;
        maxFactor, s, rest := IsqrtOdd(n);
        if maxFactor == 0 {
          TrialFinish(n0, k, n, pre, factor, rest);
          squared, fs := true, pre + rest;
          AppendAssoc(base, pre, rest);
          return;
        }
      }
    }
  }

  lemma AppendAssoc(a: seq<nat>, b: seq<nat>, c: seq<nat>)
    ensures a + b + c == a + (b + c)
  {
  }

  function Quot(n: nat, d: nat): nat
    requires d > 0
  {
    n / d
  }

  lemma DivideStep(n0: nat, k: nat, n: nat, pre: seq<nat>, factor: nat)
    requires Trial(n0, k, n, pre, factor) && Divides(factor, n) && CountOk(n, k) && factor >= 2
    ensures var m := Quot(n, factor); 1 <= m < n && CountOk(m, k) && 1 <= k < 64 && Trial(n0, k, m, pre + Times(factor, k), factor)
  {
    hide Product, Rough, Sorted, PrimeFactors, Pow;
    TrialDivide(n0, k, n, pre, factor);
    CountDivide(n, n / factor, k);
  }

  lemma Untried(n0: nat, k: nat, n: nat, pre: seq<nat>, factor: nat)
    requires Trial(n0, k, n, pre, factor) && !Divides(factor, n)
    ensures Rough(n, factor + 1)
  {
  }

  lemma TrialNext(n0: nat, k: nat, n: nat, pre: seq<nat>, factor: nat, to: nat)
    requires Trial(n0, k, n, pre, factor) && factor <= to && Rough(n, to)
    ensures Trial(n0, k, n, pre, to)
  {
  }

  lemma WheelStart()
    ensures AtWheel(2, 0, 0)
  {
    Positions();
  }

  lemma SmallLeft(n: nat, r: nat, s: nat)
    requires OddRoot(r, s, n)
    ensures n >= 2
  {
    SmallRoots(s, n);
  }

  lemma SmallPrimes()
    ensures Prime(2) && Prime(3)
  {
  }

  lemma RootBounds(s: nat, n: nat)
    requires IsRoot(s, n) && n >= 1
    ensures s >= 1 && (s * s == n && n >= 4 ==> 2 <= s < n) && (s * s == n && n < 4 ==> s == 1 && n == 1)
  {
    assert s == 0 ==> (s + 1) * (s + 1) == 1;
    if s >= 2 { MulGrows(2, s, s, s); }
  }
}
