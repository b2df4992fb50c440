/** The Debian version order (section 5.6.12 of the Debian Policy Manual) as dpkg computes it. */
module Versions {
  import opened Bits

  /** A C string without its terminating zero byte. */
  ghost predicate IsString(s: seq<byte>) {
    forall i :: 0 <= i < |s| ==> s[i] != 0
  }

  /** The byte at i; at the end, the terminating zero. */
  function At(s: seq<byte>, i: nat): byte {
    if i < |s| then s[i] else 0
  }

  predicate IsDigit(c: byte) {
    48 <= c <= 57
  }

  predicate IsAlpha(c: byte) {
    65 <= c <= 90 || 97 <= c <= 122
  }

  /** `order`: tilde before the end, the end before letters, letters before everything else. */
  function Order(c: byte): int {
    if c == 126 then -1 else if c == 0 then 0 else if IsDigit(c) then 0 else if IsAlpha(c) then c else c + 256
  }

  // ----- The meaning of a version part -----

  /** The digits at the front. */
  function Digits(s: seq<byte>): (n: nat)
    ensures n <= |s| && (n < |s| ==> !IsDigit(s[n])) && forall i :: 0 <= i < n ==> IsDigit(s[i])
  {
    if s == [] || !IsDigit(s[0]) then 0 else 1 + Digits(s[1..])
  }

  function Number(s: seq<byte>): nat
    requires forall i :: 0 <= i < |s| ==> IsDigit(s[i])
  {
    if s == [] then 0
    else
      assert IsDigit(s[|s| - 1]);
      10 * Number(s[..|s| - 1]) + (s[|s| - 1] as int - 48)
  }

  /** A part as a sequence of numbers: the order of each byte that is no digit, and for each run of
      digits a zero and its value.  The sequence goes on with zeros. */
  function Key(s: seq<byte>): seq<int> {
    if s == [] then []
    else if !IsDigit(s[0]) then [Order(s[0])] + Key(s[1..])
    else
      var n := Digits(s);
      [0, Number(s[..n])] + Key(s[n..])
  }

  function Sign(x: int): int {
    if x < 0 then -1 else if x > 0 then 1 else 0
  }

  function Head(a: seq<int>): int {
    if a == [] then 0 else a[0]
  }

  function Tail(a: seq<int>): (r: seq<int>)
    ensures |r| == if a == [] then 0 else |a| - 1
  {
    if a == [] then [] else a[1..]
  }

  /** Lexicographic comparison of sequences that go on with zeros. */
  function Compare(a: seq<int>, b: seq<int>): (r: int)
    ensures -1 <= r <= 1
    decreases |a| + |b|
  {
    if a == [] && b == [] then 0
    else if Head(a) != Head(b) then Sign(Head(a) - Head(b))
    else Compare(Tail(a), Tail(b))
  }

  // ----- It is a total preorder -----

  lemma {:induction false} CompareSame(a: seq<int>)
    ensures Compare(a, a) == 0
  {
    if a != [] { CompareSame(Tail(a)); }
  }

  lemma {:induction false} CompareFlip(a: seq<int>, b: seq<int>)
    ensures Compare(a, b) == -Compare(b, a)
    decreases |a| + |b|
  {
    if a != [] || b != [] { CompareFlip(Tail(a), Tail(b)); }
  }

  lemma {:induction false} CompareTrans(a: seq<int>, b: seq<int>, c: seq<int>)
    requires Compare(a, b) <= 0 && Compare(b, c) <= 0
    ensures Compare(a, c) <= 0 && (Compare(a, c) == 0 ==> Compare(a, b) == 0 && Compare(b, c) == 0)
    decreases |a| + |b| + |c|
  {
    CompareStep(a, b);
    CompareStep(b, c);
    CompareStep(a, c);
    if (a != [] || b != [] || c != []) && Head(a) == Head(b) == Head(c) {
      CompareTrans(Tail(a), Tail(b), Tail(c));
    }
  }

  /** Comparing heads and tails, also past the ends. */
  lemma CompareStep(a: seq<int>, b: seq<int>)
    ensures Compare(a, b) == if Head(a) != Head(b) then Sign(Head(a) - Head(b)) else Compare(Tail(a), Tail(b))
  {
  }

  // ----- Numbers -----

  ghost predicate AllDigits(s: seq<byte>) {
    forall i :: 0 <= i < |s| ==> IsDigit(s[i])
  }

  function Pow10(k: nat): (p: nat)
    ensures p >= 1
  {
    if k == 0 then 1 else 10 * Pow10(k - 1)
  }

  lemma {:induction false} NumberBelow(s: seq<byte>)
    requires AllDigits(s)
    ensures Number(s) < Pow10(|s|)
  {
    if s != [] { NumberBelow(s[..|s| - 1]); }
  }

  lemma {:induction false} NumberAtLeast(s: seq<byte>)
    requires AllDigits(s) && s != [] && s[0] != 48
    ensures Number(s) >= Pow10(|s| - 1)
  {
    if |s| > 1 {
      NumberAtLeast(s[..|s| - 1]);
    } else {
      assert s[..0] == [];
    }
  }

  /** A number with more digits is larger. */
  lemma LongerIsLarger(a: seq<byte>, b: seq<byte>)
    requires AllDigits(a) && AllDigits(b) && |a| > |b| && a[0] != 48
    ensures Number(a) > Number(b)
  {
    NumberAtLeast(a);
    NumberBelow(b);
    Pow10Grows(|b|, |a| - 1);
  }

  lemma {:induction false} Pow10Grows(i: nat, j: nat)
    requires i <= j
    ensures Pow10(i) <= Pow10(j)
  {
    if i < j { Pow10Grows(i, j - 1); }
  }

  lemma {:induction false} LeadingZero(s: seq<byte>)
    requires AllDigits(s) && s != [] && s[0] == 48
    ensures Number(s) == Number(s[1..])
  {
    if |s| > 1 {
      var n := |s| - 1;
      assert s[..n][1..] == s[1..][..n - 1];
      LeadingZero(s[..n]);
    } else {
      assert s[..0] == [] && s[1..] == [];
    }
  }

  /** The value of the digits from i on, and the position behind them. */
  function NumAt(s: seq<byte>, i: nat): nat
    requires i <= |s|
  {
    Number(s[i..][..Digits(s[i..])])
  }

  function PastDigits(s: seq<byte>, i: nat): (r: nat)
    requires i <= |s|
    ensures i <= r <= |s|
  {
    i + Digits(s[i..])
  }

  lemma SkipZero(s: seq<byte>, i: nat)
    requires i < |s| && s[i] == 48
    ensures NumAt(s, i + 1) == NumAt(s, i) && PastDigits(s, i + 1) == PastDigits(s, i)
  {
    var t := s[i..];
    assert t[1..] == s[i + 1..];
    var n := Digits(t);
    LeadingZero(t[..n]);
    assert t[..n][1..] == t[1..][..n - 1];
  }

  /** k digits of both numbers have been compared. */
  ghost predicate Compared(v: seq<byte>, i: nat, r: seq<byte>, j: nat, k: nat, diff: int) {
    && i + k <= |v| && j + k <= |r| && AllDigits(v[i..i + k]) && AllDigits(r[j..j + k])
    && Sign(diff) == Sign(Number(v[i..i + k]) - Number(r[j..j + k]))
  }

  lemma ComparedMore(v: seq<byte>, i: nat, r: seq<byte>, j: nat, k: nat, diff: int)
    requires Compared(v, i, r, j, k, diff) && i + k < |v| && j + k < |r| && IsDigit(v[i + k]) && IsDigit(r[j + k])
    ensures Compared(v, i, r, j, k + 1, if diff == 0 then v[i + k] as int - r[j + k] as int else diff)
  {
    OneMoreDigit(v, i, k);
    OneMoreDigit(r, j, k);
  }

  lemma OneMoreDigit(s: seq<byte>, i: nat, k: nat)
    requires i + k < |s| && AllDigits(s[i..i + k]) && IsDigit(s[i + k])
    ensures AllDigits(s[i..i + k + 1])
    ensures Number(s[i..i + k + 1]) == 10 * Number(s[i..i + k]) + (s[i + k] as int - 48)
  {
    var t := s[i..i + k + 1];
    assert t[..k] == s[i..i + k] && t[k] == s[i + k];
  }

  /** At the end of one of the numbers. */
  lemma ComparedEnd(v: seq<byte>, i: nat, r: seq<byte>, j: nat, k: nat, diff: int)
    requires Compared(v, i, r, j, k, diff) && !(IsDigit(At(v, i + k)) && IsDigit(At(r, j + k))) && At(v, i) != 48 && At(r, j) != 48
    ensures Sign(NumAt(v, i) - NumAt(r, j)) == if IsDigit(At(v, i + k)) then 1 else if IsDigit(At(r, j + k)) then -1 else Sign(diff)
    ensures !IsDigit(At(v, i + k)) ==> PastDigits(v, i) == i + k
    ensures !IsDigit(At(r, j + k)) ==> PastDigits(r, j) == j + k
  {
    DigitsReach(v, i, k);
    DigitsReach(r, j, k);
    var m, n := Digits(v[i..]), Digits(r[j..]);
    assert v[i..][..k] == v[i..i + k] && r[j..][..k] == r[j..j + k];
    if m > k {
      assert v[i..][..m][0] == v[i];
      LongerIsLarger(v[i..][..m], r[j..][..n]);
    } else if n > k {
      assert r[j..][..n][0] == r[j];
      LongerIsLarger(r[j..][..n], v[i..][..m]);
    }
  }

  lemma DigitsReach(s: seq<byte>, i: nat, k: nat)
    requires i + k <= |s| && AllDigits(s[i..i + k])
    ensures Digits(s[i..]) >= k && (Digits(s[i..]) == k <==> !IsDigit(At(s, i + k)))
  {
    var t := s[i..];
    var n := Digits(t);
    forall x | 0 <= x < k ensures IsDigit(t[x]) { assert t[x] == s[i..i + k][x]; }
    if n == k && i + k < |s| { assert t[n] == s[i + k]; }
    if n > k { assert t[k] == s[i + k]; }
  }

  // ----- Keys, from a position on -----

  lemma HeadIsOrder(s: seq<byte>, i: nat)
    requires i <= |s|
    ensures Head(Key(s[i..])) == Order(At(s, i))
  {
  }

  lemma KeyNext(s: seq<byte>, i: nat)
    requires i < |s| && !IsDigit(s[i])
    ensures Tail(Key(s[i..])) == Key(s[i + 1..])
  {
    assert s[i..][1..] == s[i + 1..];
  }

  /** At digits, or at the end. */
  lemma KeyNumber(s: seq<byte>, i: nat)
    requires i <= |s| && (i < |s| ==> IsDigit(s[i]))
    ensures Head(Key(s[i..])) == 0 && Head(Tail(Key(s[i..]))) == NumAt(s, i) && Tail(Tail(Key(s[i..]))) == Key(s[PastDigits(s, i)..])
  {
    hide Digits, IsDigit, Number;
    var t := s[i..];
    assert t[Digits(t)..] == s[i + Digits(t)..];
    KeyOfNumber(t);
  }

  lemma KeyOfNumber(t: seq<byte>)
    requires t == [] || IsDigit(t[0])
    ensures Head(Key(t)) == 0 && Head(Tail(Key(t))) == Number(t[..Digits(t)]) && Tail(Tail(Key(t))) == Key(t[Digits(t)..])
  {
    hide IsDigit;
    if t == [] {
      assert Number([]) == 0;
    } else {
      var n := Digits(t);
      assert Key(t) == [0, Number(t[..n])] + Key(t[n..]);
    }
  }

  lemma CompareNumbers(v: seq<byte>, i: nat, r: seq<byte>, j: nat)
    requires i <= |v| && j <= |r| && (i < |v| ==> IsDigit(v[i])) && (j < |r| ==> IsDigit(r[j]))
    ensures Compare(Key(v[i..]), Key(r[j..])) ==
            if NumAt(v, i) != NumAt(r, j) then Sign(NumAt(v, i) - NumAt(r, j))
            else Compare(Key(v[PastDigits(v, i)..]), Key(r[PastDigits(r, j)..]))
  {
    hide Compare, Key, NumAt, PastDigits;
    var a, b := Key(v[i..]), Key(r[j..]);
    KeyNumber(v, i);
    KeyNumber(r, j);
    CompareStep(a, b);
    CompareStep(Tail(a), Tail(b));
  }

  // ----- version_compare_part -----

  /** Compares from the end of the leading zeros on. */
  method CompareDigits(v: seq<byte>, i0: nat, r: seq<byte>, j0: nat) returns (i: nat, j: nat, diff: int, done: bool)
    requires i0 <= |v| && j0 <= |r|
    ensures done ==> diff != 0 && Sign(diff) == Sign(NumAt(v, i0) - NumAt(r, j0))
    ensures !done ==> NumAt(v, i0) == NumAt(r, j0) && i == PastDigits(v, i0) && j == PastDigits(r, j0)
  {
    hide Compared, NumAt, PastDigits;
    i, j := i0, j0;
    while At(v, i) == 48
      invariant i0 <= i <= |v| && NumAt(v, i) == NumAt(v, i0) && PastDigits(v, i) == PastDigits(v, i0)
      decreases |v| - i
    {
      SkipZero(v, i);
      i := i + 1;
    }
    while At(r, j) == 48
      invariant j0 <= j <= |r| && NumAt(r, j) == NumAt(r, j0) && PastDigits(r, j) == PastDigits(r, j0)
      decreases |r| - j
    {
      SkipZero(r, j);
      j := j + 1;
    }
    ghost var a, b := i, j;
    ghost var k := 0;
    diff := 0;
    NothingCompared(v, i, r, j);
    while IsDigit(At(v, i)) && IsDigit(At(r, j))
      invariant i == a + k <= |v| && j == b + k <= |r| && Compared(v, a, r, b, k, diff)
      decreases |v| - i
    {
      ComparedMore(v, a, r, b, k, diff);
      if diff == 0 {
        diff := v[i] as int - r[j] as int;
      }
      i, j, k := i + 1, j + 1, k + 1;
    }
    ComparedEnd(v, a, r, b, k, diff);
    if IsDigit(At(v, i)) {
      return i, j, 1, true;
    }
    if IsDigit(At(r, j)) {
      return i, j, -1, true;
    }
    done := diff != 0;
  }

  lemma NothingCompared(v: seq<byte>, i: nat, r: seq<byte>, j: nat)
    requires i <= |v| && j <= |r|
    ensures Compared(v, i, r, j, 0, 0)
  {
    assert v[i..i + 0] == [] && r[j..j + 0] == [];
  }

  /** Where the bytes differ or both sides come to digits or the end. */
  method SkipNonDigits(v: seq<byte>, i0: nat, r: seq<byte>, j0: nat) returns (i: nat, j: nat, diff: int)
    requires IsString(v) && IsString(r) && i0 <= |v| && j0 <= |r|
    ensures i0 <= i <= |v| && j0 <= j <= |r|
    ensures diff != 0 ==> Compare(Key(v[i0..]), Key(r[j0..])) == Sign(diff)
    ensures diff == 0 ==> Compare(Key(v[i0..]), Key(r[j0..])) == Compare(Key(v[i..]), Key(r[j..]))
    ensures diff == 0 ==> (i < |v| ==> IsDigit(v[i])) && (j < |r| ==> IsDigit(r[j]))
  {
    hide Compare, Key;
    i, j, diff := i0, j0, 0;
    while (At(v, i) != 0 && !IsDigit(At(v, i))) || (At(r, j) != 0 && !IsDigit(At(r, j)))
      invariant i0 <= i <= |v| && j0 <= j <= |r| && diff == 0
      invariant Compare(Key(v[i0..]), Key(r[j0..])) == Compare(Key(v[i..]), Key(r[j..]))
      decreases |v| - i
    {
      var vc, rc := Order(At(v, i)), Order(At(r, j));
      CompareStep(Key(v[i..]), Key(r[j..]));
      HeadIsOrder(v, i);
      HeadIsOrder(r, j);
      if vc != rc {
        diff := vc - rc;
        return;
      }
      KeyNext(v, i);
      KeyNext(r, j);
      i, j := i + 1, j + 1;
    }
  }

  /** Main result: the loop computes the sign of the comparison of the keys. */
  method VersionComparePart(v: seq<byte>, r: seq<byte>) returns (diff: int)
    requires IsString(v) && IsString(r)
    ensures Sign(diff) == Compare(Key(v), Key(r))
  {
    hide Compare, Key, NumAt, PastDigits;
    var i, j := 0, 0;
    assert v[0..] == v && r[0..] == r;
    while At(v, i) != 0 || At(r, j) != 0
      invariant 0 <= i <= |v| && 0 <= j <= |r| && Compare(Key(v), Key(r)) == Compare(Key(v[i..]), Key(r[j..]))
      decreases |v| - i + |r| - j
    {
      ghost var i0, j0 := i, j;
      i, j, diff := SkipNonDigits(v, i, r, j);
      if diff != 0 {
        return;
      }
      CompareNumbers(v, i, r, j);
      Progress(v, i);
      Progress(r, j);
      var done;
      i, j, diff, done := CompareDigits(v, i, r, j);
      if done {
        return;
      }
    }
    diff := 0;
    NoKeys(v, i);
    NoKeys(r, j);
  }

  lemma Progress(s: seq<byte>, i: nat)
    requires i <= |s|
    ensures PastDigits(s, i) >= i && (i < |s| && IsDigit(s[i]) ==> PastDigits(s, i) > i)
  {
    if i < |s| { assert s[i..][0] == s[i]; }
  }

  lemma NoKeys(s: seq<byte>, i: nat)
    requires i == |s|
    ensures Key(s[i..]) == [] && Compare([], []) == 0
  {
  }

  // ----- Whole versions -----

  /** The epoch, the upstream version and the Debian revision. */
  datatype Version = Version(epoch: nat, upstream: seq<byte>, revision: seq<byte>)

  function FirstIndex(s: seq<byte>, c: byte): (r: Option<nat>)
    ensures r.Some? ==> r.value < |s| && s[r.value] == c
  {
    if s == [] then None
    else if s[0] == c then Some(0)
    else
      match FirstIndex(s[1..], c)
      case None => None
      case Some(i) => Some(i + 1)
  }

  function LastIndex(s: seq<byte>, c: byte): (r: Option<nat>)
    ensures r.Some? ==> r.value < |s| && s[r.value] == c
  {
    if s == [] then None
    else if s[|s| - 1] == c then Some(|s| - 1)
    else LastIndex(s[..|s| - 1], c)
  }

  predicate IsSpace(c: byte) {
    c == 32 || 9 <= c <= 13
  }

  /** `atoi`, its result stored in a 32-bit unsigned. */
  function Atoi(s: seq<byte>): nat {
    if s != [] && IsSpace(s[0]) then Atoi(s[1..])
    else if s != [] && (s[0] == 43 || s[0] == 45) then
      var n: int := Number(s[1..][..Digits(s[1..])]);
      Wrap32(if s[0] == 45 then -n else n)
    else Wrap32(Number(s[..Digits(s)]))
  }

  /** How a version string is taken apart: at the first colon, and then at the last hyphen. */
  function Parse(s: seq<byte>): Version {
    var colon := FirstIndex(s, 58);
    var epoch, rest := if colon.Some? then Atoi(s) else 0, if colon.Some? then s[colon.value + 1..] else s;
    SplitRevision(rest).(epoch := epoch)
  }

  function SplitRevision(s: seq<byte>): Version {
    var hyphen := LastIndex(s, 45);
    if hyphen.Some? then Version(0, s[..hyphen.value], s[hyphen.value + 1..]) else Version(0, s, [])
  }

  function CompareVersions(a: Version, b: Version): (r: int)
    ensures -1 <= r <= 1
  {
    if a.epoch != b.epoch then Sign(a.epoch - b.epoch)
    else
      var u := Compare(Key(a.upstream), Key(b.upstream));
      if u != 0 then u else Compare(Key(a.revision), Key(b.revision))
  }

  function Versus(s: seq<byte>, t: seq<byte>): (r: int)
    ensures -1 <= r <= 1
  {
    CompareVersions(Parse(s), Parse(t))
  }

  /** Main result: the version order is a total preorder. */
  lemma VersusSame(s: seq<byte>)
    ensures Versus(s, s) == 0
  {
    CompareSame(Key(Parse(s).upstream));
    CompareSame(Key(Parse(s).revision));
  }

  lemma VersusFlip(s: seq<byte>, t: seq<byte>)
    ensures Versus(s, t) == -Versus(t, s)
  {
    hide Parse, Key;
    var a, b := Parse(s), Parse(t);
    CompareFlip(Key(a.upstream), Key(b.upstream));
    CompareFlip(Key(a.revision), Key(b.revision));
  }

  lemma VersusTrans(s: seq<byte>, t: seq<byte>, u: seq<byte>)
    requires Versus(s, t) <= 0 && Versus(t, u) <= 0
    ensures Versus(s, u) <= 0 && (Versus(s, u) == 0 ==> Versus(s, t) == 0 && Versus(t, u) == 0)
  {
    hide Parse, Key, Compare;
    var a, b, c := Parse(s), Parse(t), Parse(u);
    if a.epoch == b.epoch == c.epoch {
      CompareTrans(Key(a.upstream), Key(b.upstream), Key(c.upstream));
      if Compare(Key(a.upstream), Key(b.upstream)) == 0 == Compare(Key(b.upstream), Key(c.upstream)) {
        CompareTrans(Key(a.revision), Key(b.revision), Key(c.revision));
        SameKeys(Key(a.upstream), Key(b.upstream), Key(c.upstream));
      }
    }
  }

  lemma SameKeys(a: seq<int>, b: seq<int>, c: seq<int>)
    requires Compare(a, b) == 0 && Compare(b, c) == 0
    ensures Compare(a, c) == 0
  {
    CompareTrans(a, b, c);
    CompareFlip(a, b);
    CompareFlip(b, c);
    CompareTrans(c, b, a);
    CompareFlip(a, c);
  }

  /** Equivalent versions compare alike with any other. */
  lemma EquivalentAlike(s: seq<byte>, t: seq<byte>, u: seq<byte>)
    requires Versus(s, t) == 0 && Versus(t, u) == 0
    ensures Versus(s, u) == 0
  {
    hide Parse, CompareVersions;
    VersusTrans(s, t, u);
    VersusFlip(s, t);
    VersusFlip(t, u);
    VersusTrans(u, t, s);
    VersusFlip(s, u);
  }

  /** Splits off the epoch. */
  method SplitEpoch(s: seq<byte>) returns (epoch: nat, rest: seq<byte>)
    requires IsString(s)
    ensures IsString(rest) && Parse(s) == SplitRevision(rest).(epoch := epoch)
  {
    hide Atoi, FirstIndex, LastIndex;
    epoch, rest := 0, s;
    var colon := FirstIndex(s, 58);
    if colon.Some? {
      epoch := Atoi(s);
      rest := s[colon.value + 1..];
    }
  }

  method SplitHyphen(s: seq<byte>) returns (upstream: seq<byte>, revision: seq<byte>)
    requires IsString(s)
    ensures IsString(upstream) && IsString(revision) && SplitRevision(s) == Version(0, upstream, revision)
  {
    hide LastIndex;
    upstream, revision := s, [];
    var hyphen := LastIndex(s, 45);
    if hyphen.Some? {
      revision := s[hyphen.value + 1..];
      upstream := s[..hyphen.value];
    }
  }

  method VersionCompare(s: seq<byte>, t: seq<byte>) returns (result: int)
    requires IsString(s) && IsString(t)
    ensures Sign(result) == Versus(s, t)
  {
    hide Compare, Key, Parse, SplitRevision, IsString;
    var epoch1, ver1 := SplitEpoch(s);
    var epoch2, ver2 := SplitEpoch(t);
    if epoch1 < epoch2 {
      return -1;
    }
    if epoch1 > epoch2 {
      return 1;
    }
    var upstream1, revision1 := SplitHyphen(ver1);
    var upstream2, revision2 := SplitHyphen(ver2);
    result := VersionComparePart(upstream1, upstream2);
    if result == 0 {
      result := VersionComparePart(revision1, revision2);
    }
  }

  datatype Operator = VerNull | VerEqual | VerLess | VerLessEqual | VerMore | VerMoreEqual | VerAny

  /** What an operator asks of two versions. */
  predicate Holds(op: Operator, s: seq<byte>, t: seq<byte>) {
    match op
    case VerAny => true
    case VerEqual => Versus(s, t) == 0
    case VerLess => Versus(s, t) < 0
    case VerLessEqual => Versus(s, t) <= 0
    case VerMore => Versus(s, t) > 0
    case VerMoreEqual => Versus(s, t) >= 0
    case VerNull => false
  }

  method TestVersion(s: seq<byte>, t: seq<byte>, op: Operator) returns (r: bool)
    requires IsString(s) && IsString(t)
    ensures r == Holds(op, s, t)
  {
    hide Versus;
    var result := VersionCompare(s, t);
    match op
    case VerAny => r := true;
    case VerEqual => r := result == 0;
    case VerLess => r := result < 0;
    case VerLessEqual => r := result <= 0;
    case VerMore => r := result > 0;
    case VerMoreEqual => r := result >= 0;
    case VerNull => r := false;
  }

  /** The operators agree with one another and with exchanging the two versions. */
  lemma OperatorsAgree(s: seq<byte>, t: seq<byte>)
    ensures Holds(VerLess, s, t) <==> Holds(VerMore, t, s)
    ensures Holds(VerLessEqual, s, t) <==> !Holds(VerMore, s, t)
    ensures Holds(VerMoreEqual, s, t) <==> !Holds(VerLess, s, t)
    ensures Holds(VerEqual, s, t) <==> Holds(VerLessEqual, s, t) && Holds(VerMoreEqual, s, t)
    ensures Holds(VerEqual, s, t) <==> Holds(VerEqual, t, s)
  {
    hide Versus;
    VersusFlip(s, t);
  }
}
