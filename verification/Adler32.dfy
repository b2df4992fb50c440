/** `lzo_adler32`: the Adler-32 checksum with the modulo deferred for up to 5552 bytes. */
module Adler32 {
  import opened Bits
  import opened Factor

  const LZO_BASE: nat := 65521
  const LZO_NMAX: nat := 5552

  /** The two sums of section 2.2 of RFC 1950, byte by byte. */
  function Sums(s1: nat, s2: nat, data: seq<byte>): (nat, nat)
    decreases |data|
  {
    if data == [] then (s1, s2)
    else
      var s1' := (s1 + data[0]) % LZO_BASE;
      Sums(s1', (s2 + s1') % LZO_BASE, data[1..])
  }

  function Adler(adler: nat, data: seq<byte>): nat
    requires adler < TWO32
  {
    var (s1, s2) := Sums(adler % TWO16, adler / TWO16, data);
    s2 * TWO16 + s1
  }

  /** The sums of a text in two parts. */
  lemma {:induction false} SumsAppend(s1: nat, s2: nat, a: seq<byte>, b: seq<byte>)
    ensures Sums(s1, s2, a + b) == Sums(Sums(s1, s2, a).0, Sums(s1, s2, a).1, b)
    decreases |a|
  {
    if a == [] {
      assert a + b == b;
    } else {
      assert (a + b)[1..] == a[1..] + b;
      var s1' := (s1 + a[0]) % LZO_BASE;
      SumsAppend(s1', (s2 + s1') % LZO_BASE, a[1..], b);
    }
  }

  lemma {:induction false} SumsSmall(s1: nat, s2: nat, data: seq<byte>)
    requires s1 < TWO16 && s2 < TWO16
    ensures Sums(s1, s2, data).0 < TWO16 && Sums(s1, s2, data).1 < TWO16
    ensures data != [] ==> Sums(s1, s2, data).0 < LZO_BASE && Sums(s1, s2, data).1 < LZO_BASE
    decreases |data|
  {
    if data != [] {
      var s1' := (s1 + data[0]) % LZO_BASE;
      SumsSmall(s1', (s2 + s1') % LZO_BASE, data[1..]);
    }
  }

  /** The checksum of one byte: one more than its value, in both halves.  `AdlerAppend` gives the rest. */
  lemma AdlerOfOne(x: byte)
    ensures Adler(1, [x]) == 0x1_0000 * (1 + x as int) + 1 + x as int && Adler(1, []) == 1
  {
    assert [x][1..] == [];
    assert Sums(1, 0, [x]) == Sums(1 + x as int, 1 + x as int, []);
  }

  /** Checksums compose over concatenated buffers. */
  lemma AdlerAppend(adler: nat, a: seq<byte>, b: seq<byte>)
    requires adler < TWO32
    ensures Adler(adler, a) < TWO32 && Adler(adler, a + b) == Adler(Adler(adler, a), b)
  {
    hide Sums;
    var s1, s2 := adler % TWO16, adler / TWO16;
    SumsSmall(s1, s2, a);
    SumsAppend(s1, s2, a, b);
    var (r1, r2) := Sums(s1, s2, a);
    DivModUnique(r2 * TWO16 + r1, TWO16, r2, r1);
  }

  // ----- Deferring the modulo -----

  /** Sums that agree modulo LZO_BASE. */
  ghost predicate Congruent(u: nat, v: nat) {
    u % LZO_BASE == v % LZO_BASE
  }

  lemma AddCongruent(u: nat, v: nat, x: nat, y: nat)
    requires Congruent(u, v) && Congruent(x, y)
    ensures Congruent(u + x, v + y) && Congruent(u + x, (v + y) % LZO_BASE)
  {
  }

  /** Largest value of the second sum after j bytes, from any start. */
  function Largest(j: nat): nat {
    if j == 0 then 65535 else Largest(j - 1) + 65535 + 255 * j
  }

  lemma {:induction false} LargestIs(j: nat)
    ensures 2 * Largest(j) == 2 * 65535 * (j + 1) + 255 * (j * (j + 1))
  {
    if j > 0 { LargestIs(j - 1); }
  }

  lemma {:induction false} LargestGrows(i: nat, j: nat)
    requires i <= j
    ensures Largest(i) <= Largest(j)
  {
    if i < j { LargestGrows(i, j - 1); }
  }

  /** No sum of 5552 bytes overflows 32 bits. */
  lemma NoOverflow(j: nat)
    requires j <= LZO_NMAX
    ensures 65535 + 255 * j < TWO32 && Largest(j) < TWO32
  {
    LargestIs(LZO_NMAX);
    LargestGrows(j, LZO_NMAX);
  }

  /** One byte more could overflow. */
  lemma OneMoreOverflows()
    ensures Largest(LZO_NMAX + 1) >= TWO32
  {
    LargestIs(LZO_NMAX + 1);
  }

  /** The modulus is the largest prime below 2^16. */
  lemma BaseIsLargestPrime()
    ensures Prime(LZO_BASE) && forall p :: LZO_BASE < p < TWO16 ==> !Prime(p)
  {
    hide Prime, Rough, Divides;
    BasePrime();
    forall p | LZO_BASE < p < TWO16 ensures !Prime(p) { NotPrime(p); }
  }

  lemma NotPrime(p: nat)
    requires LZO_BASE < p < TWO16
    ensures !Prime(p)
  {
    assert 65529 % 3 == 0 && 65523 % 3 == 0 && 65525 % 5 == 0 && 65527 % 7 == 0 && 65531 % 19 == 0 && 65533 % 13 == 0 && 65535 % 3 == 0;
    assert p == 65522 || p == 65523 || p == 65524 || p == 65525 || p == 65526 || p == 65527 || p == 65528
        || p == 65529 || p == 65530 || p == 65531 || p == 65532 || p == 65533 || p == 65534 || p == 65535;
    assert Divides(2, p) || Divides(3, p) || Divides(5, p) || Divides(7, p) || Divides(13, p) || Divides(19, p);
  }

  lemma BasePrime()
    ensures Prime(LZO_BASE)
  {
    hide Prime, Rough;
    NothingTried(LZO_BASE);
    BaseTried66();
    BaseTried130();
    BaseTried194();
    BaseTried258();
    PrimeByBound(LZO_BASE, 258);
  }

  lemma BaseTried66()
    requires Rough(65521, 2)
    ensures Rough(65521, 66)
  {
    hide Rough;
    Untouched(65521, 2);
    Untouched(65521, 10);
    Untouched(65521, 18);
    Untouched(65521, 26);
    Untouched(65521, 34);
    Untouched(65521, 42);
    Untouched(65521, 50);
    Untouched(65521, 58);
  }

  lemma BaseTried130()
    requires Rough(65521, 66)
    ensures Rough(65521, 130)
  {
    hide Rough;
    Untouched(65521, 66);
    Untouched(65521, 74);
    Untouched(65521, 82);
    Untouched(65521, 90);
    Untouched(65521, 98);
    Untouched(65521, 106);
    Untouched(65521, 114);
    Untouched(65521, 122);
  }

  lemma BaseTried194()
    requires Rough(65521, 130)
    ensures Rough(65521, 194)
  {
    hide Rough;
    Untouched(65521, 130);
    Untouched(65521, 138);
    Untouched(65521, 146);
    Untouched(65521, 154);
    Untouched(65521, 162);
    Untouched(65521, 170);
    Untouched(65521, 178);
    Untouched(65521, 186);
  }

  lemma BaseTried258()
    requires Rough(65521, 194)
    ensures Rough(65521, 258)
  {
    hide Rough;
    Untouched(65521, 194);
    Untouched(65521, 202);
    Untouched(65521, 210);
    Untouched(65521, 218);
    Untouched(65521, 226);
    Untouched(65521, 234);
    Untouched(65521, 242);
    Untouched(65521, 250);
  }

  /** The inner loop: k bytes from `at` on without a modulo. */
  method AddBytes(buf: seq<byte>, at: nat, k: nat, u1: nat, u2: nat) returns (s1: nat, s2: nat)
    requires at + k <= |buf| && k <= LZO_NMAX && u1 < TWO16 && u2 < TWO16
    ensures var (r1, r2) := Sums(u1, u2, buf[at..at + k]); Congruent(s1, r1) && Congruent(s2, r2)
  {
    hide Sums, Congruent, Wrap32;
    s1, s2 := u1, u2;
    var j := 0;
    assert buf[at..at] == [];
    SumsNone(u1, u2);
    while j < k
      invariant 0 <= j <= k && s1 <= 65535 + 255 * j && s2 <= Largest(j)
      invariant var (r1, r2) := Sums(u1, u2, buf[at..at + j]); Congruent(s1, r1) && Congruent(s2, r2)
    {
      NoOverflow(j + 1);
      ghost var (r1, r2) := Sums(u1, u2, buf[at..at + j]);
      var x: nat := buf[at + j];
      SumsStep(u1, u2, buf[at..at + j], buf[at + j]);
      assert buf[at..at + j + 1] == buf[at..at + j] + [buf[at + j]];
      SameCongruent(x);
      AddCongruent(s1, r1, x, x);
      AddCongruent(s2, r2, s1 + x, (r1 + x) % LZO_BASE);
      s1 := Wrap32(s1 + x);
      s2 := Wrap32(s2 + s1);
      j := j + 1;
    }
  }

  lemma SumsNone(s1: nat, s2: nat)
    ensures Sums(s1, s2, []) == (s1, s2) && Congruent(s1, s1) && Congruent(s2, s2)
  {
  }

  lemma SameCongruent(x: nat)
    ensures Congruent(x, x)
  {
  }

  lemma SumsStep(s1: nat, s2: nat, data: seq<byte>, x: byte)
    ensures var (r1, r2) := Sums(s1, s2, data);
            Sums(s1, s2, data + [x]) == ((r1 + x) % LZO_BASE, (r2 + (r1 + x) % LZO_BASE) % LZO_BASE)
  {
    SumsAppend(s1, s2, data, [x]);
    var (r1, r2) := Sums(s1, s2, data);
    var r1' := (r1 + x) % LZO_BASE;
    assert [x][1..] == [];
    assert Sums(r1', (r2 + r1') % LZO_BASE, [x][1..]) == (r1', (r2 + r1') % LZO_BASE);
  }

  /** Main result: for every start value and every length the deferred form gives the value of the
      byte-by-byte definition; a missing buffer gives the initial value 1. */
  method LzoAdler32(adler: nat, buf: Option<seq<byte>>) returns (r: nat)
    requires adler < TWO32
    ensures r == if buf.None? then 1 else Adler(adler, buf.value)
  {
    hide Sums, Congruent, Or, Shl32;
    var s1, s2 := adler % TWO16, adler / TWO16 % TWO16;
    if buf.None? {
      return 1;
    }
    var data, at := buf.value, 0;
    ghost var u1, u2 := s1, s2;
    var len := |data|;
    assert data[..0] == [];
    SumsNone(u1, u2);
    while len > 0
      invariant 0 <= len <= |data| && at == |data| - len && s1 < TWO16 && s2 < TWO16
      invariant (s1, s2) == Sums(u1, u2, data[..at])
    {
      var k := if len < LZO_NMAX then len else LZO_NMAX;
      len := len - k;
      assert data[..at + k] == data[..at] + data[at..at + k];
      SumsAppend(u1, u2, data[..at], data[at..at + k]);
      SumsSmall(s1, s2, data[at..at + k]);
      ghost var (r1, r2) := Sums(s1, s2, data[at..at + k]);
      s1, s2 := AddBytes(data, at, k, s1, s2);
      Reduced(s1, r1);
      Reduced(s2, r2);
      s1 := s1 % LZO_BASE;
      s2 := s2 % LZO_BASE;
      at := at + k;
    }
    assert data[..|data|] == data;
    PackWords(s1, s2);
    r := Or(Shl32(s2, 16), s1);
  }

  lemma Reduced(u: nat, v: nat)
    requires Congruent(u, v) && v < LZO_BASE
    ensures u % LZO_BASE == v
  {
  }

  lemma PackWords(s1: nat, s2: nat)
    requires s1 < TWO16 && s2 < TWO16
    ensures Or(Shl32(s2, 16), s1) == s2 * TWO16 + s1
  {
    hide Or, Shl32;
    Pow2Values();
    LowShrUnique(s2, 16, 0, s2);
    ShlKeepsLow(s2, 16);
    OrDisjoint(s1, s2, 16);
    OrSwap(s1, s2 * TWO16);
  }

  lemma {:induction false} OrSwap(a: nat, b: nat)
    ensures Or(a, b) == Or(b, a)
    decreases a + b
  {
    if a > 0 || b > 0 { OrSwap(a / 2, b / 2); }
  }
}
