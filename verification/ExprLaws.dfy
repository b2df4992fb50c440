/** What the operators and functions of `expr` compute, said of tokens: numbers are written in
    decimal, and nothing here refers to how the evaluator applies an operator. */
module ExprLaws {
  import opened Bits
  import opened Expressions

  // ----- Numbers in decimal -----

  predicate InRange(i: int) {
    -0x8000_0000_0000_0000 <= i <= 0x7fff_ffff_ffff_ffff
  }

  function Power10(k: nat): nat {
    if k == 0 then 1 else 10 * Power10(k - 1)
  }

  predicate Digits(s: string) {
    s != "" && forall i :: 0 <= i < |s| ==> '0' <= s[i] <= '9'
  }

  /** The value of a string of digits. */
  function Decimal(s: string): int {
    if s == "" then 0 else (s[0] as int - '0' as int) * Power10(|s| - 1) + Decimal(s[1..])
  }

  lemma {:induction false} DecimalSnoc(s: string)
    requires s != ""
    ensures Decimal(s) == 10 * Decimal(s[..|s| - 1]) + (s[|s| - 1] as int - '0' as int)
  {
    if |s| == 1 {
      assert s[1..] == "" && s[..0] == "";
    } else {
      DecimalSnoc(s[1..]);
      assert s[1..][..|s| - 2] == s[..|s| - 1][1..];
      TenTimes(s[0] as int - '0' as int, Power10(|s| - 2));
    }
  }

  lemma TenTimes(d: int, p: nat)
    ensures d * (10 * p) == 10 * (d * p)
  {
  }

  lemma {:induction false} ReadNatIs(s: string)
    requires Digits(s)
    ensures ReadNat(s) == Some(Decimal(s))
  {
    DecimalSnoc(s);
    if |s| > 1 { ReadNatIs(s[..|s| - 1]); } else { assert s[..0] == ""; }
  }

  lemma {:induction false} ShowNatIs(n: nat)
    ensures Digits(ShowNat(n)) && Decimal(ShowNat(n)) == n
  {
    var s := ShowNat(n);
    DecimalSnoc(s);
    if n < 10 {
      assert s[..0] == "";
    } else {
      ShowNatIs(n / 10);
      assert s[..|s| - 1] == ShowNat(n / 10);
    }
  }

  /** A number as a token or as it is printed. */
  function Show(i: int): string {
    ToString(Int(i))
  }

  /** Digits are read as the number they stand for, also behind a minus sign. */
  lemma ReadDigits(s: string)
    requires Digits(s) && Decimal(s) <= 0x7fff_ffff_ffff_ffff
    ensures ReadInt(s) == Some(Decimal(s)) && ReadInt("-" + s) == Some(-Decimal(s))
  {
    hide ReadNat, Decimal;
    ReadNatIs(s);
    assert ("-" + s)[1..] == s;
    assert s[0] != '-' && s[0] != '+';
  }

  /** What is printed for a number is the sign and its decimal digits. */
  lemma ShowIs(i: int)
    ensures i >= 0 ==> Digits(Show(i)) && Decimal(Show(i)) == i
    ensures i < 0 ==> Show(i)[0] == '-' && Digits(Show(i)[1..]) && Decimal(Show(i)[1..]) == -i
  {
    hide ShowNat, Decimal;
    ShowNatIs(if i < 0 then -i else i);
    assert i < 0 ==> Show(i)[1..] == ShowNat(-i);
  }

  /** What is printed for a number is read back as that number. */
  lemma ReadShown(i: int)
    requires InRange(i)
    ensures ReadInt(Show(i)) == Some(i)
  {
    hide ReadNat, Decimal, ShowNat;
    ShowNatIs(if i < 0 then -i else i);
    ReadNatIs(ShowNat(if i < 0 then -i else i));
    var s := Show(i);
    if i < 0 { assert s[1..] == ShowNat(-i); }
  }

  lemma ShownIsNumber(i: int)
    requires InRange(i)
    ensures ToArith(Str(Show(i))) == Int(i) && Bare(Show(i))
  {
    hide ShowNat;
    ReadShown(i);
    ShownIsBare(i);
  }

  // ----- Tokens -----

  /** A token that stands for itself. */
  predicate Bare(s: string) {
    s !in KEYWORDS && s != "(" && s != ")"
  }

  lemma ShownIsBare(i: int)
    ensures Bare(Show(i))
  {
    hide ShowNat, Decimal;
    ShowIs(i);
    var s := Show(i);
    assert "quote"[0] == 'q' && "length"[0] == 'l' && "match"[0] == 'm' && "index"[0] == 'i' && "substr"[0] == 's' && "("[0] == '(' && ")"[0] == ')';
    assert s[0] == '-' || '0' <= s[0] <= '9';
  }

  /** Three tokens: an operator between two operands. */
  lemma Infix(re: Regex, l: string, op: Op, r: string)
    requires Bare(l) && Bare(r)
    ensures Answer(re, [l, Spelling(op), r]) == Apply(re, op, Str(l), Str(r))
  {
    hide Ev, Apply;
    var e := Bin(op, Lit(l), Lit(r));
    assert Print(e, 0) == [l, Spelling(op), r];
    ReadBack(re, e);
  }

  // ----- Arithmetic -----

  /** Sum, difference and product of numbers, if they are in range. */
  lemma SumDifferenceProduct(re: Regex, a: int, b: int)
    requires InRange(a) && InRange(b)
    ensures InRange(a + b) ==> Answer(re, [Show(a), "+", Show(b)]) == Some(Int(a + b))
    ensures InRange(a - b) ==> Answer(re, [Show(a), "-", Show(b)]) == Some(Int(a - b))
    ensures InRange(a * b) ==> Answer(re, [Show(a), "*", Show(b)]) == Some(Int(a * b))
  {
    hide ToString, ToArith, Answer, Wrap64;
    ShownIsNumber(a);
    ShownIsNumber(b);
    Infix(re, Show(a), Plus, Show(b));
    Infix(re, Show(a), Minus, Show(b));
    Infix(re, Show(a), Times, Show(b));
    WrapInRange(a + b);
    WrapInRange(a - b);
    WrapInRange(a * b);
  }

  /** A number in range that is equal to v modulo 2^64. */
  predicate Reduced(r: int, v: int) {
    InRange(r) && (r - v) % 0x1_0000_0000_0000_0000 == 0
  }

  lemma WrapReduces(v: int)
    ensures Reduced(Wrap64(v), v)
  {
  }

  /** Out of range, a result is reduced modulo 2^64. */
  lemma OutOfRange(re: Regex, a: int, b: int) returns (sum: int, difference: int, product: int)
    requires InRange(a) && InRange(b)
    ensures Answer(re, [Show(a), "+", Show(b)]) == Some(Int(sum)) && Reduced(sum, a + b)
    ensures Answer(re, [Show(a), "-", Show(b)]) == Some(Int(difference)) && Reduced(difference, a - b)
    ensures Answer(re, [Show(a), "*", Show(b)]) == Some(Int(product)) && Reduced(product, a * b)
  {
    hide ToString, ToArith, Answer, Wrap64, Reduced;
    sum, difference, product := Wrap64(a + b), Wrap64(a - b), Wrap64(a * b);
    ShownIsNumber(a);
    ShownIsNumber(b);
    Infix(re, Show(a), Plus, Show(b));
    Infix(re, Show(a), Minus, Show(b));
    Infix(re, Show(a), Times, Show(b));
    WrapReduces(a + b);
    WrapReduces(a - b);
    WrapReduces(a * b);
  }

  lemma QuotientIs(a: int, b: int)
    requires b != 0
    ensures var q := Quotient(a, b); var r := a - b * q;
            Abs(r) < Abs(b) && (r > 0 ==> a > 0) && (r < 0 ==> a < 0)
  {
    var m, n := Abs(a), Abs(b);
    var q := m / n;
    assert m == n * q + m % n;
    SignsOut(b, q);
    SignsOut(n, q);
  }

  lemma SignsOut(x: int, y: int)
    ensures (-x) * y == -(x * y) == x * (-y) && (-x) * (-y) == x * y
  {
  }

  function Abs(x: int): nat {
    if x < 0 then -x else x
  }

  /** Quotient and remainder: the remainder is smaller than the divisor and has the sign of the
      dividend. */
  lemma DivisionTruncates(re: Regex, a: int, b: int) returns (q: int, r: int)
    requires InRange(a) && InRange(b) && b != 0 && !(a == -0x8000_0000_0000_0000 && b == -1)
    ensures Answer(re, [Show(a), "/", Show(b)]) == Some(Int(q)) && Answer(re, [Show(a), "%", Show(b)]) == Some(Int(r))
    ensures a == b * q + r && Abs(r) < Abs(b) && (r > 0 ==> a > 0) && (r < 0 ==> a < 0)
  {
    hide ToString, ToArith, Answer, Quotient, Wrap64;
    ShownIsNumber(a);
    ShownIsNumber(b);
    Infix(re, Show(a), Over, Show(b));
    Infix(re, Show(a), Modulo, Show(b));
    QuotientIs(a, b);
    q := Quotient(a, b);
    r := a - b * q;
    QuotientInRange(a, b);
    WrapInRange(q);
  }

  lemma WrapInRange(v: int)
    ensures InRange(v) ==> Wrap64(v) == v
  {
  }

  lemma QuotientInRange(a: int, b: int)
    requires InRange(a) && InRange(b) && b != 0 && !(a == -0x8000_0000_0000_0000 && b == -1)
    ensures InRange(Quotient(a, b))
  {
    DivisionShrinks(Abs(a), Abs(b));
  }

  lemma DivisionShrinks(m: nat, n: nat)
    requires n >= 1
    ensures m / n <= m && (n == 1 ==> m / n == m) && (n >= 2 ==> 2 * (m / n) <= m)
  {
    var q := m / n;
    assert m == n * q + m % n;
    MulAtLeast(if n >= 2 then 2 else 1, n, q);
  }

  lemma MulAtLeast(c: nat, n: nat, q: nat)
    requires c <= n
    ensures c * q <= n * q
  {
  }

  /** Division by zero fails, and so does arithmetic on what is no number. */
  lemma ArithmeticFails(re: Regex, a: string, b: string)
    requires Bare(a) && Bare(b)
    ensures ReadInt(b) == Some(0) ==> Answer(re, [a, "/", b]) == None && Answer(re, [a, "%", b]) == None
    ensures ReadInt(a).None? || ReadInt(b).None? ==>
              forall op :: op in {Plus, Minus, Times, Over, Modulo} ==> Answer(re, [a, Spelling(op), b]) == None
  {
    hide Answer, ReadInt, Quotient, Wrap64;
    Infix(re, a, Over, b);
    Infix(re, a, Modulo, b);
    Infix(re, a, Plus, b);
    Infix(re, a, Minus, b);
    Infix(re, a, Times, b);
  }

  // ----- Comparison -----

  /** Whether a comparison of two operands holds. */
  predicate Holds(re: Regex, l: string, op: string, r: string) {
    Answer(re, [l, op, r]) == Some(Int(1))
  }

  /** Numbers are compared as numbers. */
  lemma NumbersCompare(re: Regex, a: int, b: int)
    requires InRange(a) && InRange(b)
    ensures Holds(re, Show(a), "<", Show(b)) <==> a < b
    ensures Holds(re, Show(a), "=", Show(b)) <==> a == b
    ensures Holds(re, Show(a), ">", Show(b)) <==> a > b
  {
    hide ToString, ToArith, Answer;
    ShownIsNumber(a);
    ShownIsNumber(b);
    Infix(re, Show(a), Less, Show(b));
    Infix(re, Show(a), Equal, Show(b));
    Infix(re, Show(a), More, Show(b));
  }

  /** Exactly one of less, equal and more holds, and the other comparisons follow; one that does not
      hold is zero. */
  lemma ComparisonsAgree(re: Regex, l: string, r: string)
    requires Bare(l) && Bare(r)
    ensures Holds(re, l, "<", r) || Holds(re, l, "=", r) || Holds(re, l, ">", r)
    ensures !(Holds(re, l, "<", r) && Holds(re, l, "=", r)) && !(Holds(re, l, "<", r) && Holds(re, l, ">", r))
    ensures !(Holds(re, l, "=", r) && Holds(re, l, ">", r))
    ensures Holds(re, l, "<=", r) <==> !Holds(re, l, ">", r)
    ensures Holds(re, l, ">=", r) <==> !Holds(re, l, "<", r)
    ensures Holds(re, l, "!=", r) <==> !Holds(re, l, "=", r)
    ensures Holds(re, l, "==", r) <==> Holds(re, l, "=", r)
    ensures forall op :: op in {"<", "<=", "=", "==", "!=", ">=", ">"} ==> Holds(re, l, op, r) || Answer(re, [l, op, r]) == Some(Int(0))
  {
    hide ToString, ToArith, Answer, Less3;
    Infix(re, l, Less, r);
    Infix(re, l, LessEqual, r);
    Infix(re, l, Equal, r);
    Infix(re, l, EqualEqual, r);
    Infix(re, l, NotEqual, r);
    Infix(re, l, MoreEqual, r);
    Infix(re, l, More, r);
  }

  lemma {:induction false} Less3Prefix(p: string, s: string, t: string)
    ensures Less3(p + s, p + t) == Less3(s, t)
  {
    if p == "" {
      assert p + s == s && p + t == t;
    } else {
      assert (p + s)[1..] == p[1..] + s && (p + t)[1..] == p[1..] + t;
      Less3Prefix(p[1..], s, t);
      if s == t { assert Less3(s, t) == 0; }
      if p + s == p + t { SameTails(p, s, t); }
    }
  }

  lemma SameTails(p: string, s: string, t: string)
    requires p + s == p + t
    ensures s == t
  {
    assert s == (p + s)[|p|..] && t == (p + t)[|p|..];
  }

  /** Strings that are not both numbers are compared in the order of the dictionary: the first
      character that differs decides, and a prefix comes first. */
  lemma StringsCompare(re: Regex, p: string, c: char, u: string, d: char, v: string)
    requires Bare(p + [c] + u) && Bare(p + [d] + v) && Bare(p) && c < d
    requires ReadInt(p + [d] + v).None?
    ensures ReadInt(p + [c] + u).None? ==> Holds(re, p + [c] + u, "<", p + [d] + v)
    ensures ReadInt(p).None? ==> Holds(re, p, "<", p + [d] + v)
  {
    hide Answer, ReadInt, Less3;
    var s, t := p + [c] + u, p + [d] + v;
    assert s == p + ([c] + u) && t == p + ([d] + v) && p == p + "";
    Infix(re, s, Less, t);
    Infix(re, p, Less, t);
    Less3Prefix(p, [c] + u, [d] + v);
    Less3Prefix(p, "", [d] + v);
    Less3First(c, u, d, v);
  }

  lemma Less3First(c: char, u: string, d: char, v: string)
    requires c < d
    ensures Less3([c] + u, [d] + v) == -1 && Less3("", [d] + v) == -1
  {
  }

  /** Equal strings are equal. */
  lemma EqualStrings(re: Regex, s: string)
    requires Bare(s)
    ensures Holds(re, s, "=", s)
  {
    hide Answer, ReadInt;
    Infix(re, s, Equal, s);
  }

  // ----- Alternatives -----

  /** `|` gives the first operand unless it is empty or zero, then the second; `&` gives the first
      operand unless one of both is empty or zero. */
  lemma Alternatives(re: Regex, l: string, r: string)
    requires Bare(l) && Bare(r)
    ensures Answer(re, [l, "|", r]) == Some(Str(if l == "" || l == "0" then r else l))
    ensures Answer(re, [l, "&", r]) == Some(if l == "" || l == "0" || r == "" || r == "0" then Int(0) else Str(l))
  {
    hide Answer;
    Infix(re, l, Or, r);
    Infix(re, l, And, r);
  }

  // ----- Functions -----

  lemma {:induction false} IndexIs(s: string, chars: string, from: nat)
    requires from <= |s|
    ensures var k := IndexOf(s, chars, from);
            if k == 0 then forall i :: from <= i < |s| ==> s[i] !in chars
            else from < k <= |s| && s[k - 1] in chars && forall i :: from <= i < k - 1 ==> s[i] !in chars
    decreases |s| - from
  {
    if from < |s| && s[from] !in chars { IndexIs(s, chars, from + 1); }
  }

  /** `length` counts the characters, `index` gives the first position of one of the characters or
      zero, and `quote` takes any token as a string. */
  lemma StringFunctions(re: Regex, s: string, chars: string) returns (k: nat)
    requires Bare(s) && Bare(chars)
    ensures Answer(re, ["length", s]) == Some(Int(|s|)) && Answer(re, ["index", s, chars]) == Some(Int(k))
    ensures if k == 0 then forall i :: 0 <= i < |s| ==> s[i] !in chars
            else k <= |s| && s[k - 1] in chars && forall i :: 0 <= i < k - 1 ==> s[i] !in chars
  {
    hide Ev, IndexOf;
    k := IndexOf(s, chars, 0);
    IndexIs(s, chars, 0);
    assert Print(Length(Lit(s)), 0) == ["length", s];
    ReadBack(re, Length(Lit(s)));
    assert Print(Index(Lit(s), Lit(chars)), 0) == ["index", s, chars];
    ReadBack(re, Index(Lit(s), Lit(chars)));
  }

  lemma Quoted(re: Regex, s: string)
    ensures Answer(re, ["quote", s]) == Some(Str(s))
  {
    hide Loop;
    var ts := ["quote", s];
    assert ts[1..] == [s] && [s][1..] == [];
    assert Ev(re, 6, ts) == Some((Str(s), []));
    LevelsUp(re, ts, Str(s), 0);
  }

  lemma {:induction false} LevelsUp(re: Regex, ts: seq<string>, v: Value, level: nat)
    requires level <= 6 && Ev(re, 6, ts) == Some((v, []))
    ensures Ev(re, level, ts) == Some((v, []))
    decreases 6 - level
  {
    hide Keyword, Ev;
    if level < 6 {
      LevelsUp(re, ts, v, level + 1);
      LevelStarts(re, level, ts);
    }
  }

  /** `substr`: n characters from position p on, or as many as there are; nothing if p or n is not
      positive, or p lies behind the end. */
  lemma SubstringIs(re: Regex, s: string, p: int, n: int)
    requires Bare(s) && InRange(p) && InRange(n)
    ensures Answer(re, ["substr", s, Show(p), Show(n)]) ==
            Some(Str(if 1 <= p <= |s| && n >= 1 then s[p - 1..if p - 1 + n <= |s| then p - 1 + n else |s|] else ""))
  {
    hide Ev, ToString, ToArith;
    ShownIsNumber(p);
    ShownIsNumber(n);
    var e := Substr(Lit(s), Lit(Show(p)), Lit(Show(n)));
    assert Print(e, 0) == ["substr", s, Show(p), Show(n)];
    ReadBack(re, e);
    assert Meaning(re, e) == Some(Substring(Str(s), Str(Show(p)), Str(Show(n))));
    StringItself(s);
    if 1 <= p <= |s| { assert s[p - 1..] == s[p - 1..|s|]; }
  }

  lemma StringItself(s: string)
    ensures ToString(Str(s)) == s
  {
  }

  /** `match` and the colon hand the string and then the pattern to the matcher. */
  lemma MatchIs(re: Regex, s: string, pattern: string)
    requires Bare(s) && Bare(pattern)
    ensures Answer(re, [s, ":", pattern]) == re(s, pattern) == Answer(re, ["match", s, pattern])
  {
    hide Ev;
    Infix(re, s, Matching, pattern);
    assert Print(Match(Lit(s), Lit(pattern)), 0) == ["match", s, pattern];
    ReadBack(re, Match(Lit(s), Lit(pattern)));
  }

  /** Of a number, zero counts as nothing. */
  lemma NumberAlternatives(re: Regex, a: int, b: int, r: string)
    requires InRange(a) && InRange(b) && InRange(a - b) && Bare(r)
    ensures Answer(re, [Show(a), "-", Show(b), "|", r]) == Some(if a == b then Str(r) else Int(a - b))
  {
    hide ToString, ToArith, Ev, Wrap64, Answer;
    ShownIsNumber(a);
    ShownIsNumber(b);
    WrapInRange(a - b);
    TighterFirst(re, Show(a), Minus, Show(b), Or, r);
    assert Meaning(re, Bin(Minus, Lit(Show(a)), Lit(Show(b)))) == Some(Int(a - b));
  }

  // ----- Precedence -----

  /** How tightly an operator binds, by its spelling. */
  function Tier(s: string): nat {
    if s == "|" then 0
    else if s == "&" then 1
    else if s in {"<", "<=", "=", "==", "!=", ">=", ">"} then 2
    else if s in {"+", "-"} then 3
    else if s in {"*", "/", "%"} then 4
    else 5
  }

  lemma TierIsLevel(op: Op)
    ensures Tier(Spelling(op)) == Level(op)
  {
  }

  /** The operator that binds tighter is applied first, and of two that bind alike the left one. */
  lemma TighterFirst(re: Regex, x: string, op: Op, y: string, op': Op, z: string)
    requires Bare(x) && Bare(y) && Bare(z)
    ensures var l, r := Bin(op, Lit(x), Lit(y)), Bin(op', Lit(y), Lit(z));
            Answer(re, [x, Spelling(op), y, Spelling(op'), z]) ==
            if Tier(Spelling(op')) > Tier(Spelling(op)) then Meaning(re, Bin(op, Lit(x), r)) else Meaning(re, Bin(op', l, Lit(z)))
  {
    hide Ev, Meaning, Tier, Level, Spelling, Print;
    TierIsLevel(op);
    TierIsLevel(op');
    var l, r := Bin(op, Lit(x), Lit(y)), Bin(op', Lit(y), Lit(z));
    var e := if Level(op') > Level(op) then Bin(op, Lit(x), r) else Bin(op', l, Lit(z));
    PrintBare(x, Level(op));
    PrintBare(x, Level(op'));
    PrintBare(y, Level(op) + 1);
    PrintBare(y, Level(op'));
    PrintBare(z, Level(op') + 1);
    PrintInfix(op, Lit(x), r, 0);
    PrintInfix(op', Lit(y), Lit(z), if Level(op') > Level(op) then Level(op) + 1 else 0);
    PrintInfix(op', l, Lit(z), 0);
    PrintInfix(op, Lit(x), Lit(y), if Level(op') > Level(op) then 0 else Level(op'));
    assert Print(e, 0) == [x, Spelling(op), y, Spelling(op'), z];
    ReadBack(re, e);
  }

  lemma PrintBare(s: string, level: nat)
    requires Bare(s)
    ensures Print(Lit(s), level) == [s]
  {
  }

  lemma PrintInfix(op: Op, l: Expr, r: Expr, level: nat)
    requires level <= Level(op)
    ensures Print(Bin(op, l, r), level) == Print(l, Level(op)) + ([Spelling(op)] + Print(r, Level(op) + 1))
  {
  }
}
