/** What section 5.6.12 of the Debian Policy Manual says of the version order, as laws of the
    comparison of whole version strings. */
module VersionPolicy {
  import opened Bits
  import opened Versions

  const TILDE: byte := 126
  const COLON: byte := 58
  const HYPHEN: byte := 45

  /** Neither a colon nor a hyphen. */
  ghost predicate Plain(s: seq<byte>) {
    forall i :: 0 <= i < |s| ==> s[i] != COLON && s[i] != HYPHEN
  }

  predicate Numeral(c: byte) {
    48 <= c <= 57
  }

  predicate Letter(c: byte) {
    65 <= c <= 90 || 97 <= c <= 122
  }

  /** A character of a version that is no numeral, no letter, no tilde, and that separates no parts. */
  predicate Other(c: byte) {
    !Numeral(c) && !Letter(c) && c != TILDE && c != 0 && c != COLON && c != HYPHEN
  }

  ghost predicate Numerals(s: seq<byte>) {
    s != [] && forall i :: 0 <= i < |s| ==> Numeral(s[i])
  }

  predicate StartsWithNumeral(s: seq<byte>) {
    s != [] && Numeral(s[0])
  }

  predicate EndsWithNumeral(s: seq<byte>) {
    s != [] && Numeral(s[|s| - 1])
  }

  /** The value of a decimal numeral. */
  function Decimal(s: seq<byte>): int {
    if s == [] then 0 else (s[0] as int - 48) * Pow10(|s| - 1) + Decimal(s[1..])
  }

  // ----- Keys and their comparison -----

  lemma {:induction false} DigitsAppend(a: seq<byte>, b: seq<byte>)
    requires Digits(a) < |a| || b == [] || !IsDigit(b[0])
    ensures Digits(a + b) == Digits(a)
  {
    if a == [] {
      assert a + b == b;
    } else if IsDigit(a[0]) {
      assert (a + b)[1..] == a[1..] + b;
      DigitsAppend(a[1..], b);
    }
  }

  lemma {:induction false} KeyAppend(a: seq<byte>, b: seq<byte>)
    requires a == [] || b == [] || !IsDigit(a[|a| - 1]) || !IsDigit(b[0])
    ensures Key(a + b) == Key(a) + Key(b)
    decreases |a|
  {
    hide Number;
    if a == [] {
      assert a + b == b;
    } else if !IsDigit(a[0]) {
      assert (a + b)[1..] == a[1..] + b;
      KeyAppend(a[1..], b);
    } else {
      var n := Digits(a);
      DigitsAppend(a, b);
      assert (a + b)[..n] == a[..n] && (a + b)[n..] == a[n..] + b;
      KeyAppend(a[n..], b);
    }
  }

  lemma {:induction false} ComparePrefix(k: seq<int>, a: seq<int>, b: seq<int>)
    ensures Compare(k + a, k + b) == Compare(a, b)
  {
    if k == [] {
      assert k + a == a && k + b == b;
    } else {
      ComparePrefix(k[1..], a, b);
      assert Tail(k + a) == k[1..] + a && Tail(k + b) == k[1..] + b;
      CompareStep(k + a, k + b);
    }
  }

  /** What follows a common prefix decides. */
  lemma PartPrefix(p: seq<byte>, x: seq<byte>, y: seq<byte>)
    requires !EndsWithNumeral(p) || (!StartsWithNumeral(x) && !StartsWithNumeral(y))
    ensures Compare(Key(p + x), Key(p + y)) == Compare(Key(x), Key(y))
  {
    hide Key, Compare;
    KeyAppend(p, x);
    KeyAppend(p, y);
    ComparePrefix(Key(p), Key(x), Key(y));
  }

  // ----- Parts of a version -----

  lemma {:induction false} FirstIndexAppend(p: seq<byte>, x: seq<byte>, c: byte)
    requires forall i :: 0 <= i < |x| ==> x[i] != c
    ensures FirstIndex(p + x, c) == FirstIndex(p, c)
  {
    if p != [] {
      assert (p + x)[1..] == p[1..] + x;
      FirstIndexAppend(p[1..], x, c);
    } else {
      assert p + x == x;
      NoFirstIndex(x, c);
    }
  }

  lemma {:induction false} NoFirstIndex(s: seq<byte>, c: byte)
    requires forall i :: 0 <= i < |s| ==> s[i] != c
    ensures FirstIndex(s, c) == None
  {
    if s != [] { NoFirstIndex(s[1..], c); }
  }

  lemma {:induction false} LastIndexAppend(p: seq<byte>, x: seq<byte>, c: byte)
    requires forall i :: 0 <= i < |x| ==> x[i] != c
    ensures LastIndex(p + x, c) == LastIndex(p, c)
  {
    if x == [] {
      assert p + x == p;
    } else {
      assert (p + x)[..|p + x| - 1] == p + x[..|x| - 1];
      LastIndexAppend(p, x[..|x| - 1], c);
    }
  }

  /** A number in front of a colon ends there. */
  lemma {:induction false} AtoiAppend(p: seq<byte>, x: seq<byte>)
    requires exists i :: 0 <= i < |p| && p[i] == COLON
    ensures Atoi(p + x) == Atoi(p)
  {
    hide Number, Wrap32;
    var i :| 0 <= i < |p| && p[i] == COLON;
    assert (p + x)[1..] == p[1..] + x;
    if IsSpace(p[0]) {
      assert p[1..][i - 1] == COLON;
      AtoiAppend(p[1..], x);
    } else if p[0] == 43 || p[0] == 45 {
      assert p[1..][i - 1] == COLON;
      DigitsAppend(p[1..], x);
      assert (p[1..] + x)[..Digits(p[1..])] == p[1..][..Digits(p[1..])];
    } else {
      DigitsAppend(p, x);
      assert (p + x)[..Digits(p)] == p[..Digits(p)];
    }
  }

  /** Plain text behind a version lengthens its last part. */
  ghost function Longer(v: Version, hyphen: bool, x: seq<byte>): Version {
    if hyphen then v.(revision := v.revision + x) else v.(upstream := v.upstream + x)
  }

  lemma SplitAppend(s: seq<byte>, x: seq<byte>)
    requires Plain(x)
    ensures SplitRevision(s + x) == Longer(SplitRevision(s), LastIndex(s, HYPHEN).Some?, x)
  {
    hide LastIndex;
    LastIndexAppend(s, x, HYPHEN);
    var h := LastIndex(s, HYPHEN);
    if h.Some? { CutAppend(s, x, h.value); }
  }

  lemma CutAppend(s: seq<byte>, x: seq<byte>, h: nat)
    requires h < |s|
    ensures (s + x)[..h] == s[..h] && (s + x)[h + 1..] == s[h + 1..] + x
  {
  }

  /** The text behind the epoch. */
  function BehindEpoch(s: seq<byte>): (r: seq<byte>)
    ensures |r| <= |s| && r == s[|s| - |r|..]
  {
    var colon := FirstIndex(s, COLON);
    if colon.Some? then s[colon.value + 1..] else s
  }

  lemma ParseAppend(p: seq<byte>, x: seq<byte>)
    requires Plain(x)
    ensures Parse(p + x) == Longer(Parse(p), LastIndex(BehindEpoch(p), HYPHEN).Some?, x)
  {
    hide FirstIndex, LastIndex, Atoi, SplitRevision;
    FirstIndexAppend(p, x, COLON);
    var colon := FirstIndex(p, COLON);
    if colon.Some? {
      AtoiAppend(p, x);
      assert (p + x)[colon.value + 1..] == p[colon.value + 1..] + x;
    }
    SplitAppend(BehindEpoch(p), x);
  }

  /** The part that is lengthened ends as the text does. */
  lemma PartEnds(p: seq<byte>)
    ensures var hyphen := LastIndex(BehindEpoch(p), HYPHEN).Some?;
            var q := if hyphen then Parse(p).revision else Parse(p).upstream;
            EndsWithNumeral(q) ==> EndsWithNumeral(p)
  {
    hide BehindEpoch, SplitRevision, LastIndex;
    ParseIs(p);
    SuffixEnds(BehindEpoch(p), p, |p| - |BehindEpoch(p)|);
    SplitEnds(BehindEpoch(p));
  }

  lemma ParseIs(p: seq<byte>)
    ensures Parse(p).upstream == SplitRevision(BehindEpoch(p)).upstream && Parse(p).revision == SplitRevision(BehindEpoch(p)).revision
  {
    hide Atoi, FirstIndex, SplitRevision;
  }

  lemma SplitEnds(s: seq<byte>)
    ensures var q := if LastIndex(s, HYPHEN).Some? then SplitRevision(s).revision else SplitRevision(s).upstream;
            EndsWithNumeral(q) ==> EndsWithNumeral(s)
  {
    hide LastIndex;
    var h := LastIndex(s, HYPHEN);
    if h.Some? { SuffixEnds(s[h.value + 1..], s, h.value + 1); }
  }

  lemma SuffixEnds(q: seq<byte>, s: seq<byte>, k: nat)
    requires k <= |s| && q == s[k..]
    ensures EndsWithNumeral(q) ==> EndsWithNumeral(s)
  {
  }

  /** What follows a common prefix decides, whatever parts the prefix has. */
  lemma CommonPrefix(p: seq<byte>, x: seq<byte>, y: seq<byte>)
    requires Plain(x) && Plain(y) && (!EndsWithNumeral(p) || (!StartsWithNumeral(x) && !StartsWithNumeral(y)))
    ensures Versus(p + x, p + y) == Compare(Key(x), Key(y))
  {
    hide Parse, Key, Compare, BehindEpoch, LastIndex;
    ParseAppend(p, x);
    ParseAppend(p, y);
    PartEnds(p);
    var v := Parse(p);
    if LastIndex(BehindEpoch(p), HYPHEN).Some? {
      PartPrefix(v.revision, x, y);
      CompareSame(Key(v.upstream));
    } else {
      PartPrefix(v.upstream, x, y);
      CompareSame(Key(v.revision));
    }
  }

  // ----- Characters -----

  lemma FirstDecides(x: seq<byte>, y: seq<byte>)
    requires x != [] && !Numeral(x[0])
    ensures Head(Key(x)) == Order(x[0]) && Head(Key([])) == 0
    ensures StartsWithNumeral(y) ==> Head(Key(y)) == 0
  {
    hide Number;
  }

  /** A tilde sorts before everything else, even before the end. */
  lemma TildeIsFirst(p: seq<byte>, u: seq<byte>, y: seq<byte>)
    requires Plain(u) && Plain(y) && (y != [] ==> y[0] != TILDE && y[0] != 0 && (EndsWithNumeral(p) ==> !Numeral(y[0])))
    ensures Versus(p + [TILDE] + u, p + y) == -1
  {
    var x := [TILDE] + u;
    assert p + [TILDE] + u == p + x;
    CommonPrefix(p, x, y);
    FirstDecides(x, y);
    if y != [] && !Numeral(y[0]) { FirstDecides(y, []); }
    CompareStep(Key(x), Key(y));
  }

  /** The end sorts before a letter and before any other character but the tilde; so does a number. */
  lemma EndIsBeforeCharacter(p: seq<byte>, x: seq<byte>, c: byte, u: seq<byte>)
    requires (Letter(c) || Other(c)) && Plain(u) && Plain(x) && (x == [] || (Numeral(x[0]) && !EndsWithNumeral(p)))
    ensures Versus(p + x, p + [c] + u) == -1
  {
    var y := [c] + u;
    assert p + [c] + u == p + y;
    CommonPrefix(p, x, y);
    FirstDecides(y, x);
    CompareStep(Key(x), Key(y));
  }

  /** Letters sort before all other characters, and each kind in the order of the character set. */
  lemma LettersAreBeforeOthers(p: seq<byte>, c: byte, u: seq<byte>, d: byte, v: seq<byte>)
    requires Plain(u) && Plain(v) && ((Letter(c) && Other(d)) || (c < d && ((Letter(c) && Letter(d)) || (Other(c) && Other(d)))))
    ensures Versus(p + [c] + u, p + [d] + v) == -1
  {
    var x, y := [c] + u, [d] + v;
    assert p + [c] + u == p + x && p + [d] + v == p + y;
    CommonPrefix(p, x, y);
    FirstDecides(x, []);
    FirstDecides(y, []);
    CompareStep(Key(x), Key(y));
  }

  // ----- Numbers -----

  lemma {:induction false} DecimalSnoc(s: seq<byte>)
    requires s != []
    ensures Decimal(s) == 10 * Decimal(s[..|s| - 1]) + (s[|s| - 1] as int - 48)
  {
    if |s| == 1 {
      assert s[1..] == [] && s[..0] == [];
    } else {
      DecimalSnoc(s[1..]);
      assert s[1..][..|s| - 2] == s[..|s| - 1][1..];
      TenTimes(s[0] as int - 48, Pow10(|s| - 2));
    }
  }

  lemma TenTimes(d: int, p: nat)
    ensures d * (10 * p) == 10 * (d * p)
  {
  }

  lemma {:induction false} NumberIsDecimal(s: seq<byte>)
    requires forall i :: 0 <= i < |s| ==> IsDigit(s[i])
    ensures Number(s) == Decimal(s)
  {
    if s != [] {
      NumberIsDecimal(s[..|s| - 1]);
      DecimalSnoc(s);
    }
  }

  lemma {:induction false} DigitsAll(a: seq<byte>)
    requires forall i :: 0 <= i < |a| ==> Numeral(a[i])
    ensures Digits(a) == |a|
  {
    if a != [] { DigitsAll(a[1..]); }
  }

  lemma NumeralKey(a: seq<byte>, u: seq<byte>)
    requires Numerals(a) && !StartsWithNumeral(u)
    ensures Key(a + u) == [0, Decimal(a)] + Key(u)
  {
    hide Number, Digits;
    DigitsAll(a);
    DigitsStop(a, u);
    assert (a + u)[..|a|] == a && (a + u)[|a|..] == u;
    NumberIsDecimal(a);
  }

  lemma {:induction false} DigitsStop(a: seq<byte>, u: seq<byte>)
    requires (forall i :: 0 <= i < |a| ==> Numeral(a[i])) && !StartsWithNumeral(u)
    ensures Digits(a + u) == |a|
  {
    if a == [] {
      assert a + u == u;
    } else {
      assert (a + u)[1..] == a[1..] + u;
      DigitsStop(a[1..], u);
    }
  }

  /** Numbers compare by value; with equal values, leading zeros do not count and what follows decides. */
  lemma NumbersByValue(p: seq<byte>, a: seq<byte>, u: seq<byte>, b: seq<byte>, v: seq<byte>)
    requires Numerals(a) && Numerals(b) && Plain(a + u) && Plain(b + v)
    requires !StartsWithNumeral(u) && !StartsWithNumeral(v) && !EndsWithNumeral(p)
    ensures Decimal(a) < Decimal(b) ==> Versus(p + a + u, p + b + v) == -1
    ensures Decimal(a) == Decimal(b) ==> Versus(p + a + u, p + b + v) == Versus(p + u, p + v)
  {
    hide Key, Compare, Versus, Decimal;
    assert p + a + u == p + (a + u) && p + b + v == p + (b + v);
    CommonPrefix(p, a + u, b + v);
    NumeralKey(a, u);
    NumeralKey(b, v);
    NumberFirst(Decimal(a), Key(u), Decimal(b), Key(v));
    PlainParts(a, u);
    PlainParts(b, v);
    CommonPrefix(p, u, v);
  }

  lemma PlainParts(a: seq<byte>, u: seq<byte>)
    requires Plain(a + u)
    ensures Plain(u)
  {
    forall i | 0 <= i < |u| ensures u[i] != COLON && u[i] != HYPHEN { assert (a + u)[|a| + i] == u[i]; }
  }

  lemma NumberFirst(n: int, k: seq<int>, m: int, l: seq<int>)
    ensures n < m ==> Compare([0, n] + k, [0, m] + l) == -1
    ensures n == m ==> Compare([0, n] + k, [0, m] + l) == Compare(k, l)
  {
    var a, b := [0, n] + k, [0, m] + l;
    CompareStep(a, b);
    CompareStep(Tail(a), Tail(b));
    assert Tail(Tail(a)) == k && Tail(Tail(b)) == l;
  }

  /** The operators on two numbers. */
  lemma OperatorsOnNumbers(a: seq<byte>, b: seq<byte>)
    requires Numerals(a) && Numerals(b)
    ensures Holds(VerLess, a, b) <==> Decimal(a) < Decimal(b)
    ensures Holds(VerLessEqual, a, b) <==> Decimal(a) <= Decimal(b)
    ensures Holds(VerEqual, a, b) <==> Decimal(a) == Decimal(b)
    ensures Holds(VerMoreEqual, a, b) <==> Decimal(a) >= Decimal(b)
    ensures Holds(VerMore, a, b) <==> Decimal(a) > Decimal(b)
    ensures Holds(VerAny, a, b) && !Holds(VerNull, a, b)
  {
    hide Versus, Decimal;
    assert [] + a + [] == a && [] + b + [] == b && a + [] == a && b + [] == b;
    NumbersByValue([], a, [], b, []);
    NumbersByValue([], b, [], a, []);
    VersusSame([] + []);
    VersusFlip(a, b);
  }

  /** Leading zeros add nothing to the value. */
  lemma {:induction false} LeadingZeros(z: seq<byte>, a: seq<byte>)
    requires forall i :: 0 <= i < |z| ==> z[i] == 48
    ensures Decimal(z + a) == Decimal(a)
  {
    if z == [] {
      assert z + a == a;
    } else {
      assert (z + a)[1..] == z[1..] + a;
      LeadingZeros(z[1..], a);
    }
  }

  // ----- Epoch, upstream version and revision -----

  /** A version text: an epoch and a colon, the upstream version, a hyphen and the revision. */
  ghost function Text(epoch: seq<byte>, upstream: seq<byte>, revision: seq<byte>): seq<byte> {
    epoch + [COLON] + upstream + [HYPHEN] + revision
  }

  ghost predicate NoByte(s: seq<byte>, c: byte) {
    forall i :: 0 <= i < |s| ==> s[i] != c
  }

  lemma {:induction false} FirstIndexAt(a: seq<byte>, c: byte, b: seq<byte>)
    requires NoByte(a, c)
    ensures FirstIndex(a + [c] + b, c) == Some(|a|)
  {
    if a == [] {
      assert a + [c] + b == [c] + b;
    } else {
      assert (a + [c] + b)[1..] == a[1..] + [c] + b;
      FirstIndexAt(a[1..], c, b);
    }
  }

  lemma LastIndexAt(a: seq<byte>, c: byte, b: seq<byte>)
    requires NoByte(b, c)
    ensures LastIndex(a + [c] + b, c) == Some(|a|)
  {
    LastIndexAppend(a + [c], b, c);
    assert (a + [c])[|a|] == c;
  }

  /** The epoch ends at the first colon and the revision begins behind the last hyphen. */
  lemma TextParts(epoch: seq<byte>, upstream: seq<byte>, revision: seq<byte>)
    requires Numerals(epoch) && NoByte(revision, HYPHEN)
    ensures Parse(Text(epoch, upstream, revision)) == Version(Wrap32(Decimal(epoch)), upstream, revision)
  {
    hide FirstIndex, LastIndex, Wrap32, Decimal, Number;
    var rest := upstream + [HYPHEN] + revision;
    var s := Text(epoch, upstream, revision);
    assert s == epoch + [COLON] + rest;
    FirstIndexAt(epoch, COLON, rest);
    LastIndexAt(upstream, HYPHEN, revision);
    assert s[|epoch| + 1..] == rest;
    assert rest[..|upstream|] == upstream && rest[|upstream| + 1..] == revision;
    EpochValue(epoch, [COLON] + rest);
    assert s == epoch + ([COLON] + rest);
  }

  lemma EpochValue(epoch: seq<byte>, rest: seq<byte>)
    requires Numerals(epoch) && rest != [] && rest[0] == COLON
    ensures Atoi(epoch + rest) == Wrap32(Decimal(epoch))
  {
    hide Wrap32, Decimal, Number;
    assert Numeral(epoch[0]);
    DigitsStop(epoch, rest);
    assert (epoch + rest)[..|epoch|] == epoch;
    NumberIsDecimal(epoch);
  }

  /** Without an epoch it is zero, and without a revision that is empty. */
  lemma PlainParse(upstream: seq<byte>)
    requires Plain(upstream)
    ensures Parse(upstream) == Version(0, upstream, [])
  {
    NoFirstIndex(upstream, COLON);
    LastIndexAppend([], upstream, HYPHEN);
    assert [] + upstream == upstream;
  }

  /** Epochs are compared first, then upstream versions, then revisions. */
  lemma PartsDecide(e1: seq<byte>, u1: seq<byte>, r1: seq<byte>, e2: seq<byte>, u2: seq<byte>, r2: seq<byte>)
    requires Numerals(e1) && Numerals(e2) && Decimal(e1) < TWO32 && Decimal(e2) < TWO32
    requires Plain(u1) && Plain(u2) && Plain(r1) && Plain(r2)
    ensures Versus(Text(e1, u1, r1), Text(e2, u2, r2)) ==
            if Decimal(e1) < Decimal(e2) then -1 else if Decimal(e1) > Decimal(e2) then 1
            else if Versus(u1, u2) != 0 then Versus(u1, u2) else Versus(r1, r2)
  {
    hide Parse, Text, Key, Compare, Decimal;
    NumberIsDecimal(e1);
    NumberIsDecimal(e2);
    TextParts(e1, u1, r1);
    TextParts(e2, u2, r2);
    PlainParse(u1);
    PlainParse(u2);
    PlainParse(r1);
    PlainParse(r2);
    CompareSame(Key([]));
  }

  /** No revision is the revision zero, and no epoch is the epoch zero. */
  lemma MissingParts(u: seq<byte>)
    requires Plain(u)
    ensures Versus(u, Text([48], u, [48])) == 0
  {
    hide Atoi, Text;
    TextParts([48], u, [48]);
    PlainParse(u);
    CompareSame(Key(u));
    assert [48][1..] == [];
    NumeralKey([48], []);
    assert [48] + [] == [48];
    assert Compare([], [0, 0]) == 0 by { CompareStep([], [0, 0]); CompareStep([], Tail([0, 0])); }
  }
}
