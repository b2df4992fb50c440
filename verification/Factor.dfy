/** `factor`: trial division by a wheel, with a shortcut for perfect squares. */
module Factor {
  import opened Bits
  import opened Wheel

  // ----- Divisors -----

  predicate Divides(d: nat, n: nat) {
    d > 0 && n % d == 0
  }

  ghost predicate Prime(p: nat) {
    p >= 2 && forall d :: 2 <= d < p ==> !Divides(d, p)
  }

  /** No divisor from 2 up to, but not including, b. */
  ghost predicate Rough(n: nat, b: nat) {
    forall d :: 2 <= d < b ==> !Divides(d, n)
  }

  lemma NothingTried(n: nat)
    ensures Rough(n, 2)
  {
  }

  /** Eight more divisors tried. */
  lemma Untouched(n: nat, b: nat)
    requires b >= 2 && Rough(n, b) && n % b != 0 && n % (b + 1) != 0 && n % (b + 2) != 0 && n % (b + 3) != 0
    requires n % (b + 4) != 0 && n % (b + 5) != 0 && n % (b + 6) != 0 && n % (b + 7) != 0
    ensures Rough(n, b + 8)
  {
    hide Divides;
    forall d | 2 <= d < b + 8 ensures !Divides(d, n) {
      if d >= b { NotDivided(n, b, d); }
    }
  }

  lemma NotDivided(n: nat, b: nat, d: nat)
    requires b >= 2 && n % b != 0 && n % (b + 1) != 0 && n % (b + 2) != 0 && n % (b + 3) != 0
    requires n % (b + 4) != 0 && n % (b + 5) != 0 && n % (b + 6) != 0 && n % (b + 7) != 0 && b <= d < b + 8
    ensures !Divides(d, n)
  {
    assert d == b || d == b + 1 || d == b + 2 || d == b + 3 || d == b + 4 || d == b + 5 || d == b + 6 || d == b + 7;
  }

  lemma IsMultiple(d: nat, n: nat, k: nat)
    requires d > 0 && n == d * k
    ensures Divides(d, n) && n / d == k
  {
    DivModUnique(n, d, k, 0);
  }

  lemma Quotient(d: nat, n: nat)
    requires Divides(d, n)
    ensures n == d * (n / d)
  {
  }

  lemma DividesTrans(a: nat, b: nat, n: nat)
    requires Divides(a, b) && Divides(b, n)
    ensures Divides(a, n)
  {
    Quotient(a, b);
    Quotient(b, n);
    var x, y := b / a, n / b;
    assert n == a * (x * y);
    IsMultiple(a, n, x * y);
  }

  /** The least divisor is prime. */
  lemma LeastIsPrime(n: nat, f: nat)
    requires f >= 2 && Rough(n, f) && Divides(f, n)
    ensures Prime(f)
  {
    hide Divides;
    forall d | 2 <= d < f ensures !Divides(d, f) {
      if Divides(d, f) { DividesTrans(d, f, n); }
    }
  }

  /** Without a divisor below a bound whose square exceeds it, a number is prime. */
  lemma PrimeByBound(n: nat, b: nat)
    requires n >= 2 && Rough(n, b) && n < b * b
    ensures Prime(n)
  {
    hide Divides;
    forall d | 2 <= d < n ensures !Divides(d, n) {
      if Divides(d, n) {
        Quotient(d, n);
        DividesPositive(d, n);
        var e := n / d;
        assert d >= b;
        CoFactor(d, e, n);
        assert e >= b;
        ProductAtLeast(d, e, b);
      }
    }
  }

  lemma DividesPositive(d: nat, n: nat)
    requires Divides(d, n)
    ensures d > 0
  {
  }

  lemma CoFactor(d: nat, e: nat, n: nat)
    requires n == d * e && 2 <= d < n
    ensures e >= 2 && Divides(e, n)
  {
    assert e == 0 ==> n == 0;
    assert e == 1 ==> n == d;
    IsMultiple(e, n, d);
  }

  lemma ProductAtLeast(d: nat, e: nat, b: nat)
    requires d >= b && e >= b
    ensures d * e >= b * b
  {
    assert d * e >= b * e >= b * b;
  }

  // ----- Products -----

  function Pow(b: nat, k: nat): nat {
    if k == 0 then 1 else b * Pow(b, k - 1)
  }

  function Product(s: seq<nat>): nat {
    if s == [] then 1 else Product(s[..|s| - 1]) * s[|s| - 1]
  }

  function Times(n: nat, k: nat): (r: seq<nat>)
    ensures |r| == k
  {
    seq(k, _ => n)
  }

  lemma {:induction false} PowMul(a: nat, b: nat, k: nat)
    ensures Pow(a * b, k) == Pow(a, k) * Pow(b, k)
  {
    if k > 0 {
      PowMul(a, b, k - 1);
      Interchange(a, b, Pow(a, k - 1), Pow(b, k - 1));
    }
  }

  lemma Interchange(a: nat, b: nat, x: nat, y: nat)
    ensures (a * b) * (x * y) == (a * x) * (b * y)
  {
  }

  lemma {:induction false} PowAdd(b: nat, j: nat, k: nat)
    ensures Pow(b, j + k) == Pow(b, j) * Pow(b, k)
  {
    if j > 0 {
      PowAdd(b, j - 1, k);
      MulAssoc(b, Pow(b, j - 1), Pow(b, k));
    }
  }

  /** A square to the power k is its root to the power 2k. */
  lemma PowSquare(s: nat, k: nat)
    ensures Pow(s * s, k) == Pow(s, 2 * k)
  {
    PowMul(s, s, k);
    PowAdd(s, k, k);
  }

  lemma {:induction false} PowGrows(a: nat, b: nat, k: nat)
    requires a <= b
    ensures Pow(a, k) <= Pow(b, k)
  {
    if k > 0 {
      PowGrows(a, b, k - 1);
      MulGrows(a, b, Pow(a, k - 1), Pow(b, k - 1));
    }
  }

  lemma MulGrows(a: nat, b: nat, x: nat, y: nat)
    requires a <= b && x <= y
    ensures a * x <= b * y
  {
    assert a * x <= b * x <= b * y;
  }

  lemma {:induction false} ProductAppend(a: seq<nat>, b: seq<nat>)
    ensures Product(a + b) == Product(a) * Product(b)
  {
    if b == [] {
      assert a + b == a;
    } else {
      var n := |b| - 1;
      assert (a + b)[..|a + b| - 1] == a + b[..n];
      ProductAppend(a, b[..n]);
      MulAssoc(Product(a), Product(b[..n]), b[n]);
    }
  }

  lemma MulAssoc(a: nat, b: nat, c: nat)
    ensures (a * b) * c == a * (b * c)
  {
  }

  lemma {:induction false} ProductTimes(n: nat, k: nat)
    ensures Product(Times(n, k)) == Pow(n, k)
  {
    if k > 0 {
      assert Times(n, k)[..k - 1] == Times(n, k - 1);
      ProductTimes(n, k - 1);
    }
  }

  // ----- What is printed -----

  ghost predicate Sorted(s: seq<nat>) {
    forall i, j :: 0 <= i < j < |s| ==> s[i] <= s[j]
  }

  ghost predicate PrimeFactors(s: seq<nat>, n: nat) {
    forall i :: 0 <= i < |s| ==> Prime(s[i]) && Divides(s[i], n)
  }

  /** The prime factors of n in order, each as often as it divides n, times k. */
  ghost predicate Factors(s: seq<nat>, n: nat, k: nat) {
    Sorted(s) && PrimeFactors(s, n) && Product(s) == Pow(n, k)
  }

  lemma PrimeFactorsOf(s: seq<nat>, m: nat, n: nat)
    requires PrimeFactors(s, m) && Divides(m, n)
    ensures PrimeFactors(s, n)
  {
    hide Prime, Divides;
    forall i | 0 <= i < |s| ensures Prime(s[i]) && Divides(s[i], n) {
      DividesTrans(s[i], m, n);
    }
  }

  // ----- The state of the division -----

  /** `pre` has been printed, n is left, and everything below `factor` has been tried. */
  ghost predicate Trial(n0: nat, k: nat, n: nat, pre: seq<nat>, factor: nat) {
    && n >= 1 && factor >= 2 && Product(pre) * Pow(n, k) == Pow(n0, k) && Divides(n, n0) && Rough(n, factor)
    && Sorted(pre) && PrimeFactors(pre, n0) && forall i :: 0 <= i < |pre| ==> pre[i] <= factor
  }

  lemma TrialStart(n: nat, k: nat)
    requires n >= 1
    ensures Trial(n, k, n, [], 2)
  {
    IsMultiple(n, n, 1);
  }

  /** Dividing by a divisor and printing it k times. */
  lemma TrialDivide(n0: nat, k: nat, n: nat, pre: seq<nat>, factor: nat)
    requires Trial(n0, k, n, pre, factor) && Divides(factor, n)
    ensures Trial(n0, k, n / factor, pre + Times(factor, k), factor) && n / factor < n
  {
    hide Prime, Divides, Rough, Product, Pow;
    var m := n / factor;
    Quotient(factor, n);
    PositiveQuotient(factor, m, n);
    LeastIsPrime(n, factor);
    DividesTrans(factor, n, n0);
    DividesTrans(m, n, n0);
    RoughQuotient(n, m, factor);
    ProductAppend(pre, Times(factor, k));
    ProductTimes(factor, k);
    PowMul(factor, m, k);
    MulAssoc(Product(pre), Pow(factor, k), Pow(m, k));
    AppendRepeated(pre, factor, k, n0);
  }

  lemma PositiveQuotient(f: nat, m: nat, n: nat)
    requires n == f * m && n >= 1 && f >= 2
    ensures 1 <= m < n && Divides(m, n)
  {
    assert m == 0 ==> n == 0;
    assert n >= 2 * m;
    IsMultiple(m, n, f);
  }

  lemma RoughQuotient(n: nat, m: nat, b: nat)
    requires Rough(n, b) && Divides(m, n)
    ensures Rough(m, b)
  {
    hide Divides;
    forall d | 2 <= d < b ensures !Divides(d, m) {
      if Divides(d, m) { DividesTrans(d, m, n); }
    }
  }

  lemma AppendRepeated(pre: seq<nat>, f: nat, k: nat, n0: nat)
    requires Sorted(pre) && PrimeFactors(pre, n0) && (forall i :: 0 <= i < |pre| ==> pre[i] <= f) && Prime(f) && Divides(f, n0)
    ensures Sorted(pre + Times(f, k)) && PrimeFactors(pre + Times(f, k), n0)
    ensures forall i :: 0 <= i < |pre + Times(f, k)| ==> (pre + Times(f, k))[i] <= f
  {
    hide Prime, Divides;
  }

  /** The factors of what is left complete the list. */
  lemma TrialFinish(n0: nat, k: nat, n: nat, pre: seq<nat>, factor: nat, rest: seq<nat>)
    requires Trial(n0, k, n, pre, factor) && Factors(rest, n, k)
    ensures Factors(pre + rest, n0, k)
  {
    hide Rough, Product, Pow, Divides;
    ProductAppend(pre, rest);
    PrimeFactorsOf(rest, n, n0);
    forall i | 0 <= i < |rest| ensures rest[i] >= factor {
      AtLeastRough(n, factor, rest[i]);
    }
  }

  lemma AtLeastRough(n: nat, b: nat, p: nat)
    requires Rough(n, b) && Divides(p, n) && p >= 2
    ensures p >= b
  {
  }

  lemma PrimeAlone(n: nat, k: nat)
    requires Prime(n)
    ensures Factors(Times(n, k), n, k)
  {
    ProductTimes(n, k);
    IsMultiple(n, n, 1);
  }

  lemma OneAlone(k: nat)
    ensures Factors([], 1, k)
  {
    PowOne(k);
  }

  lemma {:induction false} PowOne(k: nat)
    ensures Pow(1, k) == 1
  {
    if k > 0 { PowOne(k - 1); }
  }

  /** A square is left: its root's factors, each twice as often. */
  lemma SquareFactors(s: nat, k: nat, fs: seq<nat>)
    requires s >= 1 && Factors(fs, s, 2 * k)
    ensures Factors(fs, s * s, k)
  {
    hide Prime, Divides;
    PowSquare(s, k);
    IsMultiple(s, s * s, s);
    PrimeFactorsOf(fs, s, s * s);
  }

  // ----- The wheel loses no divisor -----

  /** The divisor is at increment w of the wheel, after m cycles. */
  ghost predicate AtWheel(factor: nat, w: nat, m: nat) {
    w < WHEEL_SIZE && factor == Position(w) + CYCLE * m && (m > 0 ==> w >= WHEEL_START)
  }

  lemma CoveredDivisor(d: nat, f: nat) returns (q: nat)
    requires Covered(d) && f >= 11
    ensures 2 <= q <= f && Divides(q, d)
  {
    q := if d % 2 == 0 then 2 else if d % 3 == 0 then 3 else if d % 5 == 0 then 5 else if d % 7 == 0 then 7 else 11;
  }

  lemma RoughExtends(n: nat, f: nat, to: nat)
    requires Rough(n, f + 1) && f >= 11 && forall d :: f < d < to ==> Covered(d)
    ensures Rough(n, to)
  {
    hide Covered, Divides;
    forall d | 2 <= d < to ensures !Divides(d, n) {
      if d > f && Divides(d, n) {
        var q := CoveredDivisor(d, f);
        DividesTrans(q, d, n);
      }
    }
  }

  lemma SmallSteps(n: nat, f: nat)
    requires Rough(n, f + 1) && (f == 2 || f == 3 || f == 5 || f == 7)
    ensures Rough(n, if f == 2 then 3 else if f == 3 then 5 else if f == 5 then 7 else 11)
  {
    hide Divides;
    var to := if f == 2 then 3 else if f == 3 then 5 else if f == 5 then 7 else 11;
    forall d | 2 <= d < to ensures !Divides(d, n) {
      if d > f && Divides(d, n) {
        var q := if d == 9 then 3 else if d == 10 then 5 else 2;
        SmallMultiple(q, d);
        DividesTrans(q, d, n);
      }
    }
  }

  lemma SmallMultiple(q: nat, d: nat)
    requires (d == 4 || d == 6 || d == 8 || d == 9 || d == 10) && q == if d == 9 then 3 else if d == 10 then 5 else 2
    ensures Divides(q, d)
  {
  }

  /** One turn of the wheel: every number skipped has a divisor that has been tried. */
  lemma WheelStep(n: nat, factor: nat, w: nat, m: nat)
    requires Rough(n, factor + 1) && AtWheel(factor, w, m)
    ensures Rough(n, factor + Table()[w])
    ensures if w + 1 < WHEEL_SIZE then AtWheel(factor + Table()[w], w + 1, m) else AtWheel(factor + Table()[w], WHEEL_START, m + 1)
    ensures 1 <= Table()[w] <= 14
  {
    hide Rough, Covered, Gap, Table, Position;
    Positions();
    PositionNext(w);
    if w < 4 {
      SmallSteps(n, factor);
      if w >= 2 { TableEntry(w); }
    } else {
      PositionOdd(w);
      TableGap(w);
      TableEntry(w);
      LaterPosition(w);
      var inc, p := Table()[w], Position(w);
      forall d | factor < d < factor + inc ensures Covered(d) {
        GapCovers(p, inc, d - CYCLE * m);
        CoveredRepeats(d - CYCLE * m, m);
      }
      RoughExtends(n, factor, factor + inc);
    }
  }

  lemma TableEntry(w: nat)
    requires 2 <= w < WHEEL_SIZE
    ensures 2 <= Table()[w] <= 14
  {
    hide Gap, Table;
    TableGap(w);
    GapEven(Position(w), Table()[w]);
  }

  lemma {:induction false} LaterPosition(w: nat)
    requires 4 <= w < WHEEL_SIZE
    ensures Position(w) >= 11
  {
    hide Position, Table, Gap;
    if w == 4 {
      Positions();
    } else {
      LaterPosition(w - 1);
      PositionNext(w - 1);
    }
  }
}
