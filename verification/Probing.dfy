/** Open addressing with double hashing (`make_hash` and the probe loops of dpkg): a step that is
    nonzero modulo a prime visits every slot. */
module Probing {
  import opened Bits
  import opened Factor

  // ----- The three table sizes are prime -----

  const NAME_HASH_PRIME: nat := 16381
  const PACKAGE_HASH_PRIME: nat := 10007
  const STATUS_HASH_PRIME: nat := 8191

  lemma NamePrime()
    ensures Prime(NAME_HASH_PRIME)
  {
    hide Prime, Rough;
    NothingTried(NAME_HASH_PRIME);
    Untouched(16381, 2);
    Untouched(16381, 10);
    Untouched(16381, 18);
    Untouched(16381, 26);
    Untouched(16381, 34);
    Untouched(16381, 42);
    Untouched(16381, 50);
    Untouched(16381, 58);
    NameRest();
    PrimeByBound(16381, 130);
  }

  lemma NameRest()
    requires Rough(16381, 66)
    ensures Rough(16381, 130)
  {
    hide Rough;
    Untouched(16381, 66);
    Untouched(16381, 74);
    Untouched(16381, 82);
    Untouched(16381, 90);
    Untouched(16381, 98);
    Untouched(16381, 106);
    Untouched(16381, 114);
    Untouched(16381, 122);
  }

  lemma PackagePrime()
    ensures Prime(PACKAGE_HASH_PRIME)
  {
    hide Prime, Rough;
    NothingTried(PACKAGE_HASH_PRIME);
    Untouched(10007, 2);
    Untouched(10007, 10);
    Untouched(10007, 18);
    Untouched(10007, 26);
    Untouched(10007, 34);
    Untouched(10007, 42);
    Untouched(10007, 50);
    Untouched(10007, 58);
    Untouched(10007, 66);
    Untouched(10007, 74);
    Untouched(10007, 82);
    Untouched(10007, 90);
    Untouched(10007, 98);
    PrimeByBound(10007, 106);
  }

  lemma StatusPrime()
    ensures Prime(STATUS_HASH_PRIME)
  {
    hide Prime, Rough;
    NothingTried(STATUS_HASH_PRIME);
    Untouched(8191, 2);
    Untouched(8191, 10);
    Untouched(8191, 18);
    Untouched(8191, 26);
    Untouched(8191, 34);
    Untouched(8191, 42);
    Untouched(8191, 50);
    Untouched(8191, 58);
    Untouched(8191, 66);
    Untouched(8191, 74);
    Untouched(8191, 82);
    Untouched(8191, 90);
    PrimeByBound(8191, 98);
  }

  // ----- Multiples of the step are nonzero modulo a prime -----

  lemma {:induction false} StepNonzero(p: nat, d: nat, k: nat)
    requires Prime(p) && 1 <= d < p && 1 <= k < p
    ensures (k * d) % p != 0
    decreases k
  {
    if k == 1 {
      DivModUnique(d, p, 0, d);
    } else if (k * d) % p == 0 {
      assert !Divides(k, p);
      var q, r := p / k, p % k;
      StepNonzero(p, d, r);
      Remainder(p, d, k, q, r);
    }
  }

  /** The remainder of p by k, times d, is a multiple of p if k times d is. */
  lemma Remainder(p: nat, d: nat, k: nat, q: nat, r: nat)
    requires p > 0 && p == q * k + r && (k * d) % p == 0
    ensures (r * d) % p == 0
  {
    var m := (k * d) / p;
    assert k * d == p * m;
    assert r * d == p * d - q * (k * d);
    assert q * (k * d) == p * (q * m);
    assert r * d == p * (d - q * m);
    if r * d > 0 { PositiveFactor(p, d - q * m); }
    IsMultiple(p, r * d, if r * d == 0 then 0 else d - q * m);
  }

  lemma PositiveFactor(p: nat, x: int)
    requires p > 0 && p * x > 0
    ensures x > 0
  {
  }

  // ----- Probe sequences -----

  /** The address after one more probe. */
  function NextProbe(address: nat, decrement: nat, prime: nat): (r: nat)
    requires address < prime && 1 <= decrement < prime
    ensures r < prime
  {
    if address >= decrement then address - decrement else address + prime - decrement
  }

  /** The address of probe k. */
  function Probe(start: nat, decrement: nat, prime: nat, k: nat): (r: nat)
    requires start < prime && 1 <= decrement < prime
    ensures r < prime
  {
    if k == 0 then start else NextProbe(Probe(start, decrement, prime, k - 1), decrement, prime)
  }

  /** Probe k is k steps down, modulo the prime. */
  lemma {:induction false} ProbeIs(start: nat, decrement: nat, prime: nat, k: nat) returns (c: nat)
    requires start < prime && 1 <= decrement < prime
    ensures Probe(start, decrement, prime, k) + k * decrement == start + c * prime
  {
    if k == 0 {
      c := 0;
    } else {
      var b := ProbeIs(start, decrement, prime, k - 1);
      c := if Probe(start, decrement, prime, k - 1) >= decrement then b else b + 1;
      OneMore(k, decrement);
      OneMore(b + 1, prime);
    }
  }

  lemma OneMore(k: nat, d: nat)
    requires k >= 1
    ensures k * d == (k - 1) * d + d
  {
  }

  /** The first p probes are all different. */
  lemma ProbesDiffer(start: nat, decrement: nat, prime: nat, i: nat, j: nat)
    requires Prime(prime) && start < prime && 1 <= decrement < prime && i < j < prime
    ensures Probe(start, decrement, prime, i) != Probe(start, decrement, prime, j)
  {
    hide Prime, Probe;
    if Probe(start, decrement, prime, i) == Probe(start, decrement, prime, j) {
      var a := ProbeIs(start, decrement, prime, i);
      var b := ProbeIs(start, decrement, prime, j);
      SameProbe(prime, decrement, i, j, a, b);
      StepNonzero(prime, decrement, j - i);
    }
  }

  lemma SameProbe(p: nat, d: nat, i: nat, j: nat, a: nat, b: nat)
    requires p > 0 && i < j && j * d - i * d == b * p - a * p
    ensures ((j - i) * d) % p == 0
  {
    assert (j - i) * d == (b - a) * p;
    assert (j - i) * d >= 0;
    if b < a { NegativeProduct(b - a, p); }
    IsMultiple(p, (j - i) * d, if b >= a then b - a else 0);
  }

  lemma NegativeProduct(x: int, p: nat)
    requires x < 0 && p > 0
    ensures x * p < 0
  {
  }

  /** The addresses of the first n probes. */
  ghost function Probed(start: nat, decrement: nat, prime: nat, n: nat): set<nat>
    requires start < prime && 1 <= decrement < prime
  {
    if n == 0 then {} else Probed(start, decrement, prime, n - 1) + {Probe(start, decrement, prime, n - 1)}
  }

  lemma {:induction false} ProbedHas(start: nat, decrement: nat, prime: nat, n: nat, a: nat) returns (k: nat)
    requires start < prime && 1 <= decrement < prime && a in Probed(start, decrement, prime, n)
    ensures k < n && a == Probe(start, decrement, prime, k)
  {
    if a == Probe(start, decrement, prime, n - 1) {
      k := n - 1;
    } else {
      k := ProbedHas(start, decrement, prime, n - 1, a);
    }
  }

  lemma {:induction false} ProbedSize(start: nat, decrement: nat, prime: nat, n: nat)
    requires Prime(prime) && start < prime && 1 <= decrement < prime && n <= prime
    ensures |Probed(start, decrement, prime, n)| == n
  {
    hide Prime, Probe;
    if n > 0 {
      ProbedSize(start, decrement, prime, n - 1);
      var a := Probe(start, decrement, prime, n - 1);
      if a in Probed(start, decrement, prime, n - 1) {
        var k := ProbedHas(start, decrement, prime, n - 1, a);
        ProbesDiffer(start, decrement, prime, k, n - 1);
      }
    }
  }

  ghost function Below(n: nat): set<nat> {
    if n == 0 then {} else Below(n - 1) + {n - 1}
  }

  lemma {:induction false} InBelow(n: nat, a: nat)
    ensures a in Below(n) <==> a < n
  {
    if n > 0 { InBelow(n - 1, a); }
  }

  lemma {:induction false} BelowSize(n: nat)
    ensures |Below(n)| == n
  {
    if n > 0 {
      BelowSize(n - 1);
      InBelow(n - 1, n - 1);
    }
  }

  lemma {:induction false} ProbedBelow(start: nat, decrement: nat, prime: nat, n: nat)
    requires start < prime && 1 <= decrement < prime
    ensures Probed(start, decrement, prime, n) <= Below(prime)
  {
    hide Probe, Below;
    if n > 0 {
      ProbedBelow(start, decrement, prime, n - 1);
      InBelow(prime, Probe(start, decrement, prime, n - 1));
    }
  }

  /** Main result: every address comes up among the first p probes. */
  lemma EveryAddress(start: nat, decrement: nat, prime: nat, a: nat) returns (k: nat)
    requires Prime(prime) && start < prime && 1 <= decrement < prime && a < prime
    ensures k < prime && Probe(start, decrement, prime, k) == a
  {
    hide Prime, Probe, Below, Probed;
    var s, all := Probed(start, decrement, prime, prime), Below(prime);
    ProbedSize(start, decrement, prime, prime);
    BelowSize(prime);
    ProbedBelow(start, decrement, prime, prime);
    SubsetOfSameSize(s, all);
    InBelow(prime, a);
    k := ProbedHas(start, decrement, prime, prime, a);
  }

  lemma SubsetOfSameSize(s: set<nat>, t: set<nat>)
    requires s <= t && |s| == |t|
    ensures s == t
  {
    if s != t {
      var x :| x in t && x !in s;
      assert s <= t - {x};
      SubsetSize(s, t - {x});
    }
  }

  lemma {:induction false} SubsetSize(s: set<nat>, t: set<nat>)
    requires s <= t
    ensures |s| <= |t|
  {
    if s != {} {
      var x :| x in s;
      SubsetSize(s - {x}, t - {x});
    }
  }
}
