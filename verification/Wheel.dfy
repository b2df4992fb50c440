/** The wheel of trial divisors: increments that skip only multiples of 2, 3, 5, 7 and 11. */
module Wheel {
  import opened Bits

  const WHEEL_START: nat := 5
  const WHEEL_SIZE: nat := 5 + 24 * 20
  const ROWS: nat := 23
  const ROW_SIZE: nat := 21

  /** The product of the five primes, after which the wheel repeats. */
  const CYCLE: nat := 2310

  /** The `P` macro: the 21 increments of a row. */
  function P(a: nat, b: nat, c: nat, d: nat, e: nat, f: nat, g: nat, h: nat, i: nat, j: nat, A: nat, B: nat, C: nat, D: nat, E: nat, F: nat, G: nat, H: nat, I: nat, J: nat, x: nat): (r: seq<nat>)
    ensures |r| == ROW_SIZE
  {
    [a, b, c, d, e, f, g] + [h, i, j, A, B, C, D] + [E, F, G, H, I, J, x]
  }

  /** The rows of `packed_wheel`. */
  function Row(k: nat): (r: seq<nat>)
    requires k < ROWS
    ensures |r| == ROW_SIZE
  {
    if k == 0 then P(2, 4, 2, 4, 2, 4, 6, 2, 6, 4, 2, 4, 6, 6, 2, 6, 4, 2, 6, 4, 6)
    else if k == 1 then P(8, 4, 2, 4, 2, 4, 14, 4, 6, 2, 10, 2, 6, 6, 4, 2, 4, 6, 2, 10, 2)
    else if k == 2 then P(4, 2, 12, 10, 2, 4, 2, 4, 6, 2, 6, 4, 6, 6, 6, 2, 6, 4, 2, 6, 4)
    else if k == 3 then P(6, 8, 4, 2, 4, 6, 8, 6, 10, 2, 4, 6, 2, 6, 6, 4, 2, 4, 6, 2, 6)
    else if k == 4 then P(4, 2, 6, 10, 2, 10, 2, 4, 2, 4, 6, 8, 4, 2, 4, 12, 2, 6, 4, 2, 6)
    else if k == 5 then P(4, 6, 12, 2, 4, 2, 4, 8, 6, 4, 6, 2, 4, 6, 2, 6, 10, 2, 4, 6, 2)
    else if k == 6 then P(6, 4, 2, 4, 2, 10, 2, 10, 2, 4, 6, 6, 2, 6, 6, 4, 6, 6, 2, 6, 4)
    else if k == 7 then P(2, 6, 4, 6, 8, 4, 2, 6, 4, 8, 6, 4, 6, 2, 4, 6, 8, 6, 4, 2, 10)
    else if k == 8 then P(2, 6, 4, 2, 4, 2, 10, 2, 10, 2, 4, 2, 4, 8, 6, 4, 2, 4, 6, 6, 2)
    else if k == 9 then P(6, 4, 8, 4, 6, 8, 4, 2, 4, 2, 4, 8, 6, 4, 6, 6, 6, 2, 6, 6, 4)
    else if k == 10 then P(2, 4, 6, 2, 6, 4, 2, 4, 2, 10, 2, 10, 2, 6, 4, 6, 2, 6, 4, 2, 4)
    else if k == 11 then P(6, 6, 8, 4, 2, 6, 10, 8, 4, 2, 4, 2, 4, 8, 10, 6, 2, 4, 8, 6, 6)
    else if k == 12 then P(4, 2, 4, 6, 2, 6, 4, 6, 2, 10, 2, 10, 2, 4, 2, 4, 6, 2, 6, 4, 2)
    else if k == 13 then P(4, 6, 6, 2, 6, 6, 6, 4, 6, 8, 4, 2, 4, 2, 4, 8, 6, 4, 8, 4, 6)
    else if k == 14 then P(2, 6, 6, 4, 2, 4, 6, 8, 4, 2, 4, 2, 10, 2, 10, 2, 4, 2, 4, 6, 2)
    else if k == 15 then P(10, 2, 4, 6, 8, 6, 4, 2, 6, 4, 6, 8, 4, 6, 2, 4, 8, 6, 4, 6, 2)
    else if k == 16 then P(4, 6, 2, 6, 6, 4, 6, 6, 2, 6, 6, 4, 2, 10, 2, 10, 2, 4, 2, 4, 6)
    else if k == 17 then P(2, 6, 4, 2, 10, 6, 2, 6, 4, 2, 6, 4, 6, 8, 4, 2, 4, 2, 12, 6, 4)
    else if k == 18 then P(6, 2, 4, 6, 2, 12, 4, 2, 4, 8, 6, 4, 2, 4, 2, 10, 2, 10, 6, 2, 4)
    else if k == 19 then P(6, 2, 6, 4, 2, 4, 6, 6, 2, 6, 4, 2, 10, 6, 8, 6, 4, 2, 4, 8, 6)
    else if k == 20 then P(4, 6, 2, 4, 6, 2, 6, 6, 6, 4, 6, 2, 6, 4, 2, 4, 2, 10, 12, 2, 4)
    else if k == 21 then P(2, 10, 2, 6, 4, 2, 4, 6, 6, 2, 10, 2, 6, 4, 14, 4, 2, 4, 2, 4, 8)
    else P(6, 4, 6, 2, 4, 6, 2, 6, 6, 4, 2, 4, 6, 2, 6, 4, 2, 4, 12, 2, 12)
  }

  /** The first k rows. */
  function Upto(k: nat): (r: seq<nat>)
    requires k <= ROWS
    ensures |r| == k * ROW_SIZE
  {
    if k == 0 then [] else Upto(k - 1) + Row(k - 1)
  }

  function Sum(s: seq<nat>, k: nat): nat
    requires k <= |s|
  {
    if k == 0 then 0 else Sum(s, k - 1) + s[k - 1]
  }

  // ----- No increment skips a number without small divisors -----

  ghost predicate OddCovered(d: nat) {
    d % 3 == 0 || d % 5 == 0 || d % 7 == 0 || d % 11 == 0
  }

  ghost predicate Covered(d: nat) {
    d % 2 == 0 || OddCovered(d)
  }

  /** From the odd number p an even increment n skips only multiples of small primes. */
  ghost predicate Gap(p: nat, n: nat) {
    && n % 2 == 0 && 2 <= n <= 14 && (n < 4 || OddCovered(p + 2)) && (n < 6 || OddCovered(p + 4)) && (n < 8 || OddCovered(p + 6))
    && (n < 10 || OddCovered(p + 8)) && (n < 12 || OddCovered(p + 10)) && (n < 14 || OddCovered(p + 12))
  }

  lemma GapCovers(p: nat, n: nat, d: nat)
    requires p % 2 == 1 && Gap(p, n) && p < d < p + n
    ensures Covered(d)
  {
    hide OddCovered;
    if d % 2 == 1 {
      var k := (d - p) / 2;
      assert d == p + 2 * k && 1 <= k <= 6;
    }
  }

  /** All increments of a sequence, taken from p on, are such gaps and lead to q. */
  ghost predicate Gaps(p: nat, s: seq<nat>, q: nat) {
    q == p + Sum(s, |s|) && forall k :: 0 <= k < |s| ==> Gap(p + Sum(s, k), s[k])
  }

  lemma {:induction false} SumAppend(a: seq<nat>, b: seq<nat>, k: nat)
    requires k <= |a| + |b|
    ensures Sum(a + b, k) == if k <= |a| then Sum(a, k) else Sum(a, |a|) + Sum(b, k - |a|)
  {
    if k > 0 { SumAppend(a, b, k - 1); }
  }

  lemma SumNone(s: seq<nat>)
    ensures Sum(s, 0) == 0
  {
  }

  lemma GapsAppend(p: nat, a: seq<nat>, q: nat, b: seq<nat>, r: nat)
    requires Gaps(p, a, q) && Gaps(q, b, r)
    ensures Gaps(p, a + b, r)
  {
    hide Gap, Sum;
    var s := a + b;
    SumNone(b);
    SumAppend(a, b, |s|);
    forall k | 0 <= k < |s| ensures Gap(p + Sum(s, k), s[k]) {
      SumAppend(a, b, k);
      if k >= |a| {
        var j := k - |a|;
        assert s[k] == b[j] && Gap(q + Sum(b, j), b[j]);
      }
    }
  }

  /** The same for seven increments. */
  ghost predicate SevenGaps(p: nat, a: nat, b: nat, c: nat, d: nat, e: nat, f: nat, g: nat, q: nat) {
    && Gap(p, a) && Gap(p + a, b) && Gap(p + a + b, c) && Gap(p + a + b + c, d) && Gap(p + a + b + c + d, e)
    && Gap(p + a + b + c + d + e, f) && Gap(p + a + b + c + d + e + f, g) && q == p + a + b + c + d + e + f + g
  }

  lemma SevenIsGaps(p: nat, a: nat, b: nat, c: nat, d: nat, e: nat, f: nat, g: nat, q: nat)
    requires SevenGaps(p, a, b, c, d, e, f, g, q)
    ensures Gaps(p, [a, b, c, d, e, f, g], q)
  {
    hide Gap;
    var s := [a, b, c, d, e, f, g];
    assert Sum(s, 1) == Sum(s, 0) + a;
    assert Sum(s, 2) == Sum(s, 1) + b;
    assert Sum(s, 3) == Sum(s, 2) + c;
    assert Sum(s, 4) == Sum(s, 3) + d;
    assert Sum(s, 5) == Sum(s, 4) + e;
    assert Sum(s, 6) == Sum(s, 5) + f;
    assert Sum(s, 7) == Sum(s, 6) + g;
  }

  /** The same for the increments of one row, with the positions after a third and two thirds. */
  lemma RowIsGaps(p: nat, a: nat, b: nat, c: nat, d: nat, e: nat, f: nat, g: nat, p1: nat, h: nat, i: nat, j: nat, A: nat, B: nat, C: nat, D: nat, p2: nat, E: nat, F: nat, G: nat, H: nat, I: nat, J: nat, x: nat, q: nat)
    requires SevenGaps(p, a, b, c, d, e, f, g, p1) && SevenGaps(p1, h, i, j, A, B, C, D, p2) && SevenGaps(p2, E, F, G, H, I, J, x, q)
    ensures Gaps(p, P(a, b, c, d, e, f, g, h, i, j, A, B, C, D, E, F, G, H, I, J, x), q)
  {
    hide Gaps, SevenGaps;
    SevenIsGaps(p, a, b, c, d, e, f, g, p1);
    SevenIsGaps(p1, h, i, j, A, B, C, D, p2);
    SevenIsGaps(p2, E, F, G, H, I, J, x, q);
    GapsAppend(p, [a, b, c, d, e, f, g], p1, [h, i, j, A, B, C, D], p2);
    GapsAppend(p, [a, b, c, d, e, f, g] + [h, i, j, A, B, C, D], p2, [E, F, G, H, I, J, x], q);
  }

  /** Where row k begins. */
  function RowStart(k: nat): nat
    requires k <= ROWS
  {
    if k == 0 then 5 else if k == 1 then 89 else if k == 2 then 193 else if k == 3 then 293 else if k == 4 then 397 else if k == 5 then 499
    else if k == 6 then 601 else if k == 7 then 701 else if k == 8 then 809 else if k == 9 then 901 else if k == 10 then 1007 else if k == 11 then 1097
    else if k == 12 then 1213 else if k == 13 then 1303 else if k == 14 then 1409 else if k == 15 then 1501 else if k == 16 then 1609 else if k == 17 then 1709
    else if k == 18 then 1811 else if k == 19 then 1913 else if k == 20 then 2017 else if k == 21 then 2117 else if k == 22 then 2221 else 2323
  }

  lemma Rows0To2(k: nat)
    requires 0 <= k < 3
    ensures Gaps(RowStart(k), Row(k), RowStart(k + 1))
  {
    hide Gaps, P;
    if k == 0 {
      RowIsGaps(5, 2, 4, 2, 4, 2, 4, 6, 29, 2, 6, 4, 2, 4, 6, 6, 59, 2, 6, 4, 2, 6, 4, 6, 89);
    } else if k == 1 {
      RowIsGaps(89, 8, 4, 2, 4, 2, 4, 14, 127, 4, 6, 2, 10, 2, 6, 6, 163, 4, 2, 4, 6, 2, 10, 2, 193);
    } else {
      RowIsGaps(193, 4, 2, 12, 10, 2, 4, 2, 229, 4, 6, 2, 6, 4, 6, 6, 263, 6, 2, 6, 4, 2, 6, 4, 293);
    }
  }

  lemma Rows3To5(k: nat)
    requires 3 <= k < 6
    ensures Gaps(RowStart(k), Row(k), RowStart(k + 1))
  {
    hide Gaps, P;
    if k == 3 {
      RowIsGaps(293, 6, 8, 4, 2, 4, 6, 8, 331, 6, 10, 2, 4, 6, 2, 6, 367, 6, 4, 2, 4, 6, 2, 6, 397);
    } else if k == 4 {
      RowIsGaps(397, 4, 2, 6, 10, 2, 10, 2, 433, 4, 2, 4, 6, 8, 4, 2, 463, 4, 12, 2, 6, 4, 2, 6, 499);
    } else {
      RowIsGaps(499, 4, 6, 12, 2, 4, 2, 4, 533, 8, 6, 4, 6, 2, 4, 6, 569, 2, 6, 10, 2, 4, 6, 2, 601);
    }
  }

  lemma Rows6To8(k: nat)
    requires 6 <= k < 9
    ensures Gaps(RowStart(k), Row(k), RowStart(k + 1))
  {
    hide Gaps, P;
    if k == 6 {
      RowIsGaps(601, 6, 4, 2, 4, 2, 10, 2, 631, 10, 2, 4, 6, 6, 2, 6, 667, 6, 4, 6, 6, 2, 6, 4, 701);
    } else if k == 7 {
      RowIsGaps(701, 2, 6, 4, 6, 8, 4, 2, 733, 6, 4, 8, 6, 4, 6, 2, 769, 4, 6, 8, 6, 4, 2, 10, 809);
    } else {
      RowIsGaps(809, 2, 6, 4, 2, 4, 2, 10, 839, 2, 10, 2, 4, 2, 4, 8, 871, 6, 4, 2, 4, 6, 6, 2, 901);
    }
  }

  lemma Rows9To11(k: nat)
    requires 9 <= k < 12
    ensures Gaps(RowStart(k), Row(k), RowStart(k + 1))
  {
    hide Gaps, P;
    if k == 9 {
      RowIsGaps(901, 6, 4, 8, 4, 6, 8, 4, 941, 2, 4, 2, 4, 8, 6, 4, 971, 6, 6, 6, 2, 6, 6, 4, 1007);
    } else if k == 10 {
      RowIsGaps(1007, 2, 4, 6, 2, 6, 4, 2, 1033, 4, 2, 10, 2, 10, 2, 6, 1069, 4, 6, 2, 6, 4, 2, 4, 1097);
    } else {
      RowIsGaps(1097, 6, 6, 8, 4, 2, 6, 10, 1139, 8, 4, 2, 4, 2, 4, 8, 1171, 10, 6, 2, 4, 8, 6, 6, 1213);
    }
  }

  lemma Rows12To14(k: nat)
    requires 12 <= k < 15
    ensures Gaps(RowStart(k), Row(k), RowStart(k + 1))
  {
    hide Gaps, P;
    if k == 12 {
      RowIsGaps(1213, 4, 2, 4, 6, 2, 6, 4, 1241, 6, 2, 10, 2, 10, 2, 4, 1277, 2, 4, 6, 2, 6, 4, 2, 1303);
    } else if k == 13 {
      RowIsGaps(1303, 4, 6, 6, 2, 6, 6, 6, 1339, 4, 6, 8, 4, 2, 4, 2, 1369, 4, 8, 6, 4, 8, 4, 6, 1409);
    } else {
      RowIsGaps(1409, 2, 6, 6, 4, 2, 4, 6, 1439, 8, 4, 2, 4, 2, 10, 2, 1471, 10, 2, 4, 2, 4, 6, 2, 1501);
    }
  }

  lemma Rows15To17(k: nat)
    requires 15 <= k < 18
    ensures Gaps(RowStart(k), Row(k), RowStart(k + 1))
  {
    hide Gaps, P;
    if k == 15 {
      RowIsGaps(1501, 10, 2, 4, 6, 8, 6, 4, 1541, 2, 6, 4, 6, 8, 4, 6, 1577, 2, 4, 8, 6, 4, 6, 2, 1609);
    } else if k == 16 {
      RowIsGaps(1609, 4, 6, 2, 6, 6, 4, 6, 1643, 6, 2, 6, 6, 4, 2, 10, 1679, 2, 10, 2, 4, 2, 4, 6, 1709);
    } else {
      RowIsGaps(1709, 2, 6, 4, 2, 10, 6, 2, 1741, 6, 4, 2, 6, 4, 6, 8, 1777, 4, 2, 4, 2, 12, 6, 4, 1811);
    }
  }

  lemma Rows18To20(k: nat)
    requires 18 <= k < 21
    ensures Gaps(RowStart(k), Row(k), RowStart(k + 1))
  {
    hide Gaps, P;
    if k == 18 {
      RowIsGaps(1811, 6, 2, 4, 6, 2, 12, 4, 1847, 2, 4, 8, 6, 4, 2, 4, 1877, 2, 10, 2, 10, 6, 2, 4, 1913);
    } else if k == 19 {
      RowIsGaps(1913, 6, 2, 6, 4, 2, 4, 6, 1943, 6, 2, 6, 4, 2, 10, 6, 1979, 8, 6, 4, 2, 4, 8, 6, 2017);
    } else {
      RowIsGaps(2017, 4, 6, 2, 4, 6, 2, 6, 2047, 6, 6, 4, 6, 2, 6, 4, 2081, 2, 4, 2, 10, 12, 2, 4, 2117);
    }
  }

  lemma Rows21To22(k: nat)
    requires 21 <= k < 23
    ensures Gaps(RowStart(k), Row(k), RowStart(k + 1))
  {
    hide Gaps, P;
    if k == 21 {
      RowIsGaps(2117, 2, 10, 2, 6, 4, 2, 4, 2147, 6, 6, 2, 10, 2, 6, 4, 2183, 14, 4, 2, 4, 2, 4, 8, 2221);
    } else {
      RowIsGaps(2221, 6, 4, 6, 2, 4, 6, 2, 2251, 6, 6, 4, 2, 4, 6, 2, 2281, 6, 4, 2, 4, 12, 2, 12, 2323);
    }
  }

  lemma RowsAll(k: nat)
    requires k < ROWS
    ensures Gaps(RowStart(k), Row(k), RowStart(k + 1))
  {
    hide Gaps, Row, RowStart;
    if k < 3 { Rows0To2(k); } else if k < 6 { Rows3To5(k); } else if k < 9 { Rows6To8(k); } else if k < 12 { Rows9To11(k); }
    else if k < 15 { Rows12To14(k); } else if k < 18 { Rows15To17(k); } else if k < 21 { Rows18To20(k); } else { Rows21To22(k); }
  }

  lemma {:induction false} UptoGaps(k: nat)
    requires k <= ROWS
    ensures Gaps(5, Upto(k), RowStart(k))
  {
    hide Gap, Row, RowStart;
    if k == 0 {
      FirstStart();
    } else {
      UptoGaps(k - 1);
      hide Gaps;
      RowsAll(k - 1);
      GapsAppend(5, Upto(k - 1), RowStart(k - 1), Row(k - 1), RowStart(k));
    }
  }

  lemma FirstStart()
    ensures RowStart(0) == 5 && RowStart(ROWS) == 13 + CYCLE
  {
  }

  // ----- The table and its positions -----

  /** `wheel_tab`. */
  function Table(): (r: seq<nat>)
    ensures |r| == WHEEL_SIZE
  {
    [1, 2] + Upto(ROWS)
  }

  /** The divisor reached with the first w increments from 2. */
  function Position(w: nat): nat
    requires w <= WHEEL_SIZE
  {
    2 + Sum(Table(), w)
  }

  lemma PositionIs(w: nat)
    requires 2 <= w <= WHEEL_SIZE
    ensures Position(w) == 5 + Sum(Upto(ROWS), w - 2)
  {
    hide Upto;
    var head: seq<nat> := [1, 2];
    SumAppend(head, Upto(ROWS), w);
    assert Sum(head, 1) == Sum(head, 0) + 1 && Sum(head, 2) == Sum(head, 1) + 2;
  }

  /** Every increment after the first two is a gap, at its position and one or more cycles later. */
  lemma TableGap(w: nat)
    requires 2 <= w < WHEEL_SIZE
    ensures Gap(Position(w), Table()[w])
  {
    hide Gap, Upto, RowStart;
    UptoGaps(ROWS);
    PositionIs(w);
  }

  lemma PositionNext(w: nat)
    requires w < WHEEL_SIZE
    ensures Position(w + 1) == Position(w) + Table()[w]
  {
  }

  lemma {:induction false} PositionOdd(w: nat)
    requires 2 <= w <= WHEEL_SIZE
    ensures Position(w) % 2 == 1 && Position(w) >= 5
  {
    hide Upto, Gap, Sum;
    if w == 2 {
      Positions();
    } else {
      PositionOdd(w - 1);
      TableGap(w - 1);
      GapEven(Position(w - 1), Table()[w - 1]);
      PositionNext(w - 1);
    }
  }

  lemma GapEven(p: nat, n: nat)
    requires Gap(p, n)
    ensures n % 2 == 0 && 2 <= n <= 14
  {
  }

  /** The first divisors, and the divisor at which the wheel starts over. */
  lemma Positions()
    ensures Position(0) == 2 && Position(1) == 3 && Position(2) == 5 && Position(3) == 7 && Position(4) == 11 && Position(5) == 13
    ensures Position(WHEEL_SIZE) == 13 + CYCLE
  {
    UptoGaps(ROWS);
    FirstStart();
    PositionIs(WHEEL_SIZE);
    hide Gaps;
    FirstIncrements();
    PositionNext(0);
    PositionNext(1);
    PositionNext(2);
    PositionNext(3);
    PositionNext(4);
  }

  lemma FirstIncrements()
    ensures Table()[0] == 1 && Table()[1] == 2 && Table()[2] == 2 && Table()[3] == 4 && Table()[4] == 2
  {
    hide Row, Upto;
    UptoHead(ROWS);
    FirstRow();
  }

  lemma {:induction false} UptoHead(k: nat)
    requires 1 <= k <= ROWS
    ensures Upto(k)[..ROW_SIZE] == Row(0)
  {
    hide Row;
    if k == 1 {
      assert Upto(1) == Upto(0) + Row(0);
    } else {
      UptoHead(k - 1);
    }
  }

  lemma FirstRow()
    ensures Row(0)[0] == 2 && Row(0)[1] == 4 && Row(0)[2] == 2
  {
  }

  /** Whether a number is covered repeats with the wheel. */
  lemma CoveredRepeats(d: nat, m: nat)
    ensures Covered(d + CYCLE * m) == Covered(d)
  {
    var e := d + CYCLE * m;
    assert e % 2 == d % 2 by { SameResidue(d, 2, 1155 * m); }
    assert e % 3 == d % 3 by { SameResidue(d, 3, 770 * m); }
    assert e % 5 == d % 5 by { SameResidue(d, 5, 462 * m); }
    assert e % 7 == d % 7 by { SameResidue(d, 7, 330 * m); }
    assert e % 11 == d % 11 by { SameResidue(d, 11, 210 * m); }
  }

  lemma SameResidue(d: nat, q: nat, k: nat)
    requires q > 0
    ensures (d + q * k) % q == d % q
  {
    var r, t := d % q, d / q;
    assert d + q * k == (t + k) * q + r;
    Bits.DivModUnique(d + q * k, q, t + k, r);
  }

  // ----- Unpacking -----

  /** Increments packed with three bits each, as `packed_wheel` holds them. */
  function Packed(row: seq<nat>): nat {
    if row == [] then 0 else row[0] + 8 * Packed(row[1..])
  }

  ghost predicate Digits(row: seq<nat>) {
    forall j :: 0 <= j < |row| ==> row[j] % 2 == 0 && 2 <= row[j] <= 14
  }

  lemma {:induction false} PackedEven(row: seq<nat>)
    requires Digits(row)
    ensures Packed(row) % 2 == 0
  {
    if row != [] { PackedEven(row[1..]); }
  }

  /** One step of unpacking.  The lowest bit may be left over from the increment before. */
  lemma UnpackStep(row: seq<nat>, v: nat)
    requires Digits(row) && Packed(row) <= v <= Packed(row) + 1
    ensures v % 16 / 2 * 2 == if row == [] then 0 else row[0]
    ensures row != [] ==> Packed(row[1..]) <= v / 8 <= Packed(row[1..]) + 1
  {
    if row != [] {
      PackedEven(row[1..]);
      OneDigit(row[0], Packed(row[1..]), v - Packed(row));
    }
  }

  lemma OneDigit(a: nat, rest: nat, e: nat)
    requires a % 2 == 0 && 2 <= a <= 14 && rest % 2 == 0 && e <= 1
    ensures var v := a + 8 * rest + e; v % 16 / 2 * 2 == a && rest <= v / 8 <= rest + 1
  {
    DivModUnique(a + 8 * rest + e, 16, rest / 2, a + e);
    DivModUnique(a + 8 * rest + e, 8, rest + (a + e) / 8, (a + e) % 8);
    EvenPart(a, e);
  }

  lemma EvenPart(a: nat, e: nat)
    requires a % 2 == 0 && e <= 1
    ensures (a + e) / 2 * 2 == a
  {
  }

  /** What increments take, packed. */
  lemma {:induction false} PackedFits(row: seq<nat>)
    requires Digits(row)
    ensures Packed(row) + 2 <= 2 * Pow2(3 * |row|)
  {
    if row != [] {
      PackedFits(row[1..]);
      EightTimes(3 * (|row| - 1));
    }
  }

  lemma EightTimes(k: nat)
    ensures Pow2(k + 3) == 8 * Pow2(k)
  {
    assert Pow2(k + 3) == 2 * Pow2(k + 2) == 4 * Pow2(k + 1);
  }

  /** A packed row fits 64 bits. */
  lemma RowFits(k: nat)
    requires k < ROWS
    ensures Packed(Row(k)) < TWO64
  {
    hide Row, Packed, Digits, Pow2;
    RowDigits(k);
    PackedFits(Row(k));
    Pow2Of64();
  }

  lemma RowDigits(k: nat)
    requires k < ROWS
    ensures Digits(Row(k))
  {
    hide Gap, Row, RowStart, Sum;
    RowsAll(k);
    var row, p := Row(k), RowStart(k);
    forall j | 0 <= j < |row| ensures row[j] % 2 == 0 && 2 <= row[j] <= 14 {
      GapEven(p + Sum(row, j), row[j]);
    }
  }

  /** `unpack_wheel`. */
  method UnpackWheel() returns (tab: seq<nat>)
    ensures tab == Table()
  {
    hide Row, Packed, Digits, Upto;
    tab := [1, 2];
    UptoNone();
    for i := 0 to ROWS
      invariant tab == [1, 2] + Upto(i)
    {
      var v := Packed(Row(i));
      RowDigits(i);
      RowFits(i);
      UptoNext([1, 2], i);
      tab := UnpackRow(tab, v, Row(i));
    }
  }

  lemma UptoNone()
    ensures Upto(0) == []
  {
  }

  lemma UptoNext(head: seq<nat>, k: nat)
    requires k < ROWS
    ensures head + Upto(k + 1) == head + Upto(k) + Row(k)
  {
    hide Row;
    assert Upto(k + 1) == Upto(k) + Row(k);
  }

  method UnpackRow(tab0: seq<nat>, word: nat, ghost row: seq<nat>) returns (tab: seq<nat>)
    requires Digits(row) && word == Packed(row) < TWO64
    ensures tab == tab0 + row
  {
    hide Packed;
    tab := tab0;
    var v := word;
    ghost var j := 0;
    UnpackStep(row, v);
    assert row[0..] == row;
    while v % 16 / 2 * 2 != 0
      invariant 0 <= j <= |row| && tab == tab0 + row[..j] && Digits(row[j..]) && Packed(row[j..]) <= v <= Packed(row[j..]) + 1
      invariant v % 16 / 2 * 2 == if j == |row| then 0 else row[j]
      decreases |row| - j
    {
      UnpackStep(row[j..], v);
      assert row[j..][1..] == row[j + 1..] && row[..j + 1] == row[..j] + [row[j]];
      tab := tab + [v % 16 / 2 * 2];
      v := v / 8;
      j := j + 1;
      UnpackStep(row[j..], v);
    }
  }

}
