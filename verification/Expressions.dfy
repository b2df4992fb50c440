/** `expr`: evaluation while parsing, with no syntax tree.  The trees here exist only to say what
    the tokens mean. */
module Expressions {
  import opened Bits

  // ----- Values -----

  datatype Value = Int(i: int) | Str(s: string)

  const ARITH_MIN: int := -0x8000_0000_0000_0000
  const ARITH_MAX: int := 0x7fff_ffff_ffff_ffff

  /** Storing into a 64-bit signed integer. */
  function Wrap64(v: int): int {
    (v - ARITH_MIN) % (ARITH_MAX - ARITH_MIN + 1) + ARITH_MIN
  }

  /** Zero, the empty string or the string of one zero. */
  predicate IsNull(v: Value) {
    if v.Int? then v.i == 0 else v.s == "" || v.s == "0"
  }

  function Digit(d: nat): char
    requires d < 10
  {
    d as char + '0'
  }

  function ShowNat(n: nat): string {
    if n < 10 then [Digit(n)] else ShowNat(n / 10) + [Digit(n % 10)]
  }

  function ToString(v: Value): string {
    if v.Str? then v.s else if v.i < 0 then "-" + ShowNat(-v.i) else ShowNat(v.i)
  }

  /** The value of a string of digits. */
  function ReadNat(s: string): Option<nat> {
    if s == "" then None
    else
      var c := s[|s| - 1];
      if c < '0' || c > '9' then None
      else if |s| == 1 then Some(c as nat - '0' as nat)
      else
        match ReadNat(s[..|s| - 1])
        case None => None
        case Some(n) => Some(10 * n + (c as nat - '0' as nat))
  }

  function Clamp(v: int): int {
    if v < ARITH_MIN then ARITH_MIN else if v > ARITH_MAX then ARITH_MAX else v
  }

  /** `strtoll` where nothing but a number is accepted: spaces, a sign, digits. */
  function ReadInt(s: string): Option<int> {
    if s != "" && (s[0] == ' ' || ('\t' <= s[0] <= '\r')) then ReadInt(s[1..])
    else
      var neg := s != "" && s[0] == '-';
      match ReadNat(if neg || (s != "" && s[0] == '+') then s[1..] else s)
      case None => None
      case Some(n) => Some(Clamp(if neg then -(n as int) else n))
  }

  /** `toarith`: the value as an integer, if it is one. */
  function ToArith(v: Value): Value {
    if v.Int? then v else if ReadInt(v.s).Some? then Int(ReadInt(v.s).value) else v
  }

  // ----- Operators -----

  datatype Op = Or | And | Less | LessEqual | Equal | EqualEqual | NotEqual | MoreEqual | More
              | Plus | Minus | Times | Over | Modulo | Matching

  /** The binary operators bind in six levels; a higher one binds tighter. */
  function Level(op: Op): (l: nat)
    ensures l <= 5
  {
    match op
    case Or => 0
    case And => 1
    case Plus | Minus => 3
    case Times | Over | Modulo => 4
    case Matching => 5
    case _ => 2
  }

  function Spelling(op: Op): string {
    match op
    case Or => "|"
    case And => "&"
    case Less => "<"
    case LessEqual => "<="
    case Equal => "="
    case EqualEqual => "=="
    case NotEqual => "!="
    case MoreEqual => ">="
    case More => ">"
    case Plus => "+"
    case Minus => "-"
    case Times => "*"
    case Over => "/"
    case Modulo => "%"
    case Matching => ":"
  }

  /** The operator of a level that a token spells. */
  function OpAt(level: nat, tok: string): (r: Option<Op>)
    ensures r.Some? ==> Level(r.value) == level && Spelling(r.value) == tok
  {
    if level == 0 then if tok == "|" then Some(Or) else None
    else if level == 1 then if tok == "&" then Some(And) else None
    else if level == 2 then
      if tok == "<" then Some(Less) else if tok == "<=" then Some(LessEqual) else if tok == "=" then Some(Equal)
      else if tok == "==" then Some(EqualEqual) else if tok == "!=" then Some(NotEqual)
      else if tok == ">=" then Some(MoreEqual) else if tok == ">" then Some(More) else None
    else if level == 3 then if tok == "+" then Some(Plus) else if tok == "-" then Some(Minus) else None
    else if level == 4 then if tok == "*" then Some(Times) else if tok == "/" then Some(Over) else if tok == "%" then Some(Modulo) else None
    else if level == 5 then if tok == ":" then Some(Matching) else None
    else None
  }

  function Less3(a: string, b: string): int {
    if a == b then 0 else if a == "" then -1 else if b == "" then 1
    else if a[0] != b[0] then if a[0] < b[0] then -1 else 1
    else Less3(a[1..], b[1..])
  }

  predicate CompareInts(op: Op, a: int, b: int) {
    match op
    case Less => a < b
    case LessEqual => a <= b
    case Equal | EqualEqual => a == b
    case NotEqual => a != b
    case More => a > b
    case _ => a >= b
  }

  /** Comparison: of integers if both are, else of strings. */
  function CompareValues(op: Op, l: Value, r: Value): Value {
    var a, b := ToArith(l), ToArith(r);
    var holds := if a.Int? && b.Int? then CompareInts(op, a.i, b.i) else CompareInts(op, Less3(ToString(a), ToString(b)), 0);
    Int(if holds then 1 else 0)
  }

  /** Division that truncates toward zero. */
  function Quotient(a: int, b: int): int
    requires b != 0
  {
    var q: int := (if a < 0 then -a else a) / (if b < 0 then -b else b);
    if (a < 0) == (b < 0) then q else -q
  }

  function Arithmetic(op: Op, l: Value, r: Value): Option<Value> {
    var a, b := ToArith(l), ToArith(r);
    if a.Str? || b.Str? then None
    else
      match op
      case Plus => Some(Int(Wrap64(a.i + b.i)))
      case Minus => Some(Int(Wrap64(a.i - b.i)))
      case Times => Some(Int(Wrap64(a.i * b.i)))
      case _ =>
        if b.i == 0 then None
        else if op == Over then Some(Int(Wrap64(Quotient(a.i, b.i))))
        else Some(Int(a.i - b.i * Quotient(a.i, b.i)))
  }

  /** The pattern match; what a regular expression matches is not part of this model. */
  type Regex = (string, string) -> Option<Value>

  /** The value of an operator applied to two values, if there is one. */
  function Apply(re: Regex, op: Op, l: Value, r: Value): Option<Value> {
    match op
    case Or => Some(if IsNull(l) then r else l)
    case And => Some(if IsNull(l) || IsNull(r) then Int(0) else l)
    case Plus | Minus | Times | Over | Modulo => Arithmetic(op, l, r)
    case Matching => re(ToString(l), ToString(r))
    case _ => Some(CompareValues(op, l, r))
  }

  // ----- Functions -----

  const KEYWORDS: set<string> := {"quote", "length", "match", "index", "substr"}

  /** Position, from one, of the first character of s that is in chars; zero if there is none. */
  function IndexOf(s: string, chars: string, from: nat): nat
    requires from <= |s|
    decreases |s| - from
  {
    if from == |s| then 0 else if s[from] in chars then from + 1 else IndexOf(s, chars, from + 1)
  }

  function Substring(l: Value, pos: Value, len: Value): Value {
    var s, p, n := ToString(l), ToArith(pos), ToArith(len);
    if p.Str? || n.Str? || p.i > |s| || p.i <= 0 || n.i <= 0 then Str("")
    else if n.i <= |s| - (p.i - 1) then Str(s[p.i - 1..p.i - 1 + n.i])
    else Str(s[p.i - 1..])
  }

  // ----- Trees -----

  datatype Expr = Lit(s: string)
                | Bin(op: Op, l: Expr, r: Expr)
                | Length(e: Expr)
                | Match(l: Expr, r: Expr)
                | Index(l: Expr, r: Expr)
                | Substr(e: Expr, pos: Expr, len: Expr)

  /** The value of a tree; nothing if an operand is not numeric or a divisor is zero. */
  function Meaning(re: Regex, e: Expr): Option<Value> {
    match e
    case Lit(s) => Some(Str(s))
    case Bin(op, l, r) =>
      var a, b := Meaning(re, l), Meaning(re, r);
      if a.None? || b.None? then None else Apply(re, op, a.value, b.value)
    case Length(x) =>
      var a := Meaning(re, x);
      if a.None? then None else Some(Int(|ToString(a.value)|))
    case Match(l, r) =>
      var a, b := Meaning(re, l), Meaning(re, r);
      if a.None? || b.None? then None else re(ToString(a.value), ToString(b.value))
    case Index(l, r) =>
      var a, b := Meaning(re, l), Meaning(re, r);
      if a.None? || b.None? then None else Some(Int(IndexOf(ToString(a.value), ToString(b.value), 0)))
    case Substr(x, p, n) =>
      var a, b, c := Meaning(re, x), Meaning(re, p), Meaning(re, n);
      if a.None? || b.None? || c.None? then None else Some(Substring(a.value, b.value, c.value))
  }

  /** The tokens of a tree where an operand of the given level is expected: parentheses around
      operators that bind less tightly, and `quote` in front of keywords and parentheses. */
  function Print(e: Expr, level: nat): seq<string> {
    match e
    case Lit(s) => if s in KEYWORDS || s == "(" || s == ")" then ["quote", s] else [s]
    case Bin(op, l, r) =>
      var inner := Print(l, Level(op)) + ([Spelling(op)] + Print(r, Level(op) + 1));
      if Level(op) < level then ["("] + (inner + [")"]) else inner
    case Length(x) => ["length"] + Print(x, 6)
    case Match(l, r) => ["match"] + (Print(l, 6) + Print(r, 6))
    case Index(l, r) => ["index"] + (Print(l, 6) + Print(r, 6))
    case Substr(x, p, n) => ["substr"] + (Print(x, 6) + (Print(p, 6) + Print(n, 6)))
  }

  // ----- Evaluation as a function of the tokens -----

  type Result = Option<(Value, seq<string>)>

  /** `eval` (level 0) to `eval5` (level 5), `eval6` and `eval7`: the value of what is at the front
      of the tokens, and the tokens left. */
  function Ev(re: Regex, level: nat, ts: seq<string>): (r: Result)
    requires level <= 7
    ensures r.Some? ==> |r.value.1| < |ts|
    decreases |ts|, 7 - level, 0
  {
    if level <= 5 then
      match Ev(re, level + 1, ts)
      case None => None
      case Some((l, rest)) => Loop(re, level, l, rest)
    else if level == 6 && ts != [] && ts[0] in KEYWORDS then Keyword(re, ts[0], ts[1..])
    else if level == 6 then Ev(re, 7, ts)
    else if ts == [] || ts[0] == ")" then None
    else if ts[0] == "(" then
      match Ev(re, 0, ts[1..])
      case None => None
      case Some((v, rest)) => if rest != [] && rest[0] == ")" then Some((v, rest[1..])) else None
    else Some((Str(ts[0]), ts[1..]))
  }

  /** The loop over the operators of one level, with the value so far. */
  function Loop(re: Regex, level: nat, l: Value, ts: seq<string>): (r: Result)
    requires level <= 5
    ensures r.Some? ==> |r.value.1| <= |ts|
    decreases |ts|, 8, 1
  {
    if ts == [] || OpAt(level, ts[0]).None? then Some((l, ts))
    else
      match Ev(re, level + 1, ts[1..])
      case None => None
      case Some((r, rest)) =>
        match Apply(re, OpAt(level, ts[0]).value, l, r)
        case None => None
        case Some(v) => Loop(re, level, v, rest)
  }

  /** The operands of a keyword, each evaluated by `eval6`. */
  function Keyword(re: Regex, key: string, ts: seq<string>): (r: Result)
    requires key in KEYWORDS
    ensures r.Some? ==> |r.value.1| <= |ts|
    decreases |ts|, 8, 0
  {
    if key == "quote" then if ts == [] then None else Some((Str(ts[0]), ts[1..]))
    else
      match Ev(re, 6, ts)
      case None => None
      case Some((a, rest)) =>
        if key == "length" then Some((Int(|ToString(a)|), rest))
        else
          match Ev(re, 6, rest)
          case None => None
          case Some((b, rest2)) =>
            if key == "match" then
              match re(ToString(a), ToString(b))
              case None => None
              case Some(v) => Some((v, rest2))
            else if key == "index" then Some((Int(IndexOf(ToString(a), ToString(b), 0)), rest2))
            else
              match Ev(re, 6, rest2)
              case None => None
              case Some((c, rest3)) => Some((Substring(a, b, c), rest3))
  }

  // ----- What was printed is read back -----

  /** The tokens do not go on with an operator of this level or a higher one. */
  ghost predicate NoOperator(level: nat, ts: seq<string>) {
    ts == [] || forall l :: level <= l <= 5 ==> OpAt(l, ts[0]).None?
  }

  /** What evaluation at a level makes of the value at the front and the tokens behind it. */
  function GoOn(re: Regex, level: nat, v: Option<Value>, ts: seq<string>): Result
    requires level <= 6
  {
    if v.None? then None else if level == 6 then Some((v.value, ts)) else Loop(re, level, v.value, ts)
  }

  lemma OneLevel(op: Op, l: nat)
    requires l <= 5
    ensures OpAt(l, Spelling(op)) == if l == Level(op) then Some(op) else None
  {
  }

  /** The order in which the levels of one tree are settled. */
  function Steps(e: Expr, level: nat): (n: nat)
    requires level <= 6
  {
    if e.Bin? && level <= Level(e.op) then Level(e.op) - level + 1 else 20 - level
  }

  /** Main result: where the tokens of a tree stand, evaluation takes exactly those tokens and goes
      on with the value of the tree.  Operators of one level associate to the left. */
  lemma {:induction false} ReadBackAt(re: Regex, e: Expr, level: nat, rest: seq<string>)
    requires level <= 6 && NoOperator(level + 1, rest)
    ensures Ev(re, level, Print(e, level) + rest) == GoOn(re, level, Meaning(re, e), rest)
    decreases e, Steps(e, level)
  {
    hide Ev, Loop, Print, Meaning, GoOn;
    if level == 6 {
      ReadBackOperand(re, e, rest);
    } else if e.Bin? && Level(e.op) == level {
      ReadBackOperator(re, e, rest);
    } else {
      ReadBackAt(re, e, level + 1, rest);
      NextLevel(re, e, level, rest);
    }
  }

  /** A tree whose operator is of another level is read one level up. */
  lemma NextLevel(re: Regex, e: Expr, level: nat, rest: seq<string>)
    requires level <= 5 && !(e.Bin? && Level(e.op) == level) && NoOperator(level + 1, rest)
    requires Ev(re, level + 1, Print(e, level + 1) + rest) == GoOn(re, level + 1, Meaning(re, e), rest)
    ensures Ev(re, level, Print(e, level) + rest) == GoOn(re, level, Meaning(re, e), rest)
  {
    hide Meaning, Keyword, Apply;
    assert Print(e, level) == Print(e, level + 1);
  }

  lemma {:induction false} ReadBackOperator(re: Regex, e: Expr, rest: seq<string>)
    requires e.Bin? && NoOperator(Level(e.op) + 1, rest)
    ensures Ev(re, Level(e.op), Print(e, Level(e.op)) + rest) == GoOn(re, Level(e.op), Meaning(re, e), rest)
    decreases e, 0
  {
    hide Ev, Print, Meaning, Apply, NoOperator, OpAt, Spelling, GoOn;
    var k, op := Level(e.op), Spelling(e.op);
    var right := Print(e.r, k + 1) + rest;
    var tail := [op] + right;
    PrintedOperator(e, rest);
    OperatorEnds(e.op, right);
    ReadBackAt(re, e.l, k, tail);
    NoOperatorUp(k + 1, rest);
    ReadBackAt(re, e.r, k + 1, rest);
    OneLevel(e.op, k);
    OneOperator(re, e, rest, right);
  }

  lemma PrintedOperator(e: Expr, rest: seq<string>)
    requires e.Bin?
    ensures var k := Level(e.op);
            Print(e, k) + rest == Print(e.l, k) + ([Spelling(e.op)] + (Print(e.r, k + 1) + rest))
  {
  }

  lemma OperatorEnds(op: Op, ts: seq<string>)
    ensures NoOperator(Level(op) + 1, [Spelling(op)] + ts)
  {
    forall l | Level(op) + 1 <= l <= 5 ensures OpAt(l, Spelling(op)).None? { OneLevel(op, l); }
  }

  lemma NoOperatorUp(level: nat, ts: seq<string>)
    requires NoOperator(level, ts)
    ensures NoOperator(level + 1, ts)
  {
  }

  /** The loop takes the operator and its right operand. */
  lemma OneOperator(re: Regex, e: Expr, rest: seq<string>, right: seq<string>)
    requires e.Bin? && NoOperator(Level(e.op) + 1, rest) && OpAt(Level(e.op), Spelling(e.op)) == Some(e.op)
    requires Ev(re, Level(e.op) + 1, right) == GoOn(re, Level(e.op) + 1, Meaning(re, e.r), rest)
    ensures GoOn(re, Level(e.op), Meaning(re, e.l), [Spelling(e.op)] + right) == GoOn(re, Level(e.op), Meaning(re, e), rest)
  {
    hide Ev, Apply, OpAt, Spelling, Keyword;
    var k, ts := Level(e.op), [Spelling(e.op)] + right;
    assert ts[1..] == right;
    OperandEnds(re, k + 1, Meaning(re, e.r), rest);
    assert Meaning(re, e) == (if Meaning(re, e.l).None? || Meaning(re, e.r).None? then None
                              else Apply(re, e.op, Meaning(re, e.l).value, Meaning(re, e.r).value));
  }

  lemma OperandEnds(re: Regex, level: nat, v: Option<Value>, rest: seq<string>)
    requires level <= 6 && NoOperator(level, rest)
    ensures GoOn(re, level, v, rest) == if v.None? then None else Some((v.value, rest))
  {
    hide Ev, Apply, OpAt;
  }

  lemma {:induction false} ReadBackOperand(re: Regex, e: Expr, rest: seq<string>)
    ensures Ev(re, 6, Print(e, 6) + rest) == GoOn(re, 6, Meaning(re, e), rest)
    decreases e, 13
  {
    hide Ev, Print, Meaning, GoOn, Loop, NoOperator;
    match e
    case Lit(s) => LiteralReads(re, s, rest);
    case Bin(op, l, r) =>
      CloseEnds(rest);
      ReadBackAt(re, e, 0, [")"] + rest);
      OperandEnds(re, 0, Meaning(re, e), [")"] + rest);
      Parenthesised(re, e, rest);
    case Length(x) =>
      ReadBackOperand(re, x, rest);
      LengthReads(re, x, rest);
    case Match(l, r) =>
      ReadBackOperand(re, r, rest);
      ReadBackOperand(re, l, Print(r, 6) + rest);
      PairReads(re, "match", l, r, rest);
    case Index(l, r) =>
      ReadBackOperand(re, r, rest);
      ReadBackOperand(re, l, Print(r, 6) + rest);
      PairReads(re, "index", l, r, rest);
    case Substr(x, p, n) =>
      ReadBackOperand(re, n, rest);
      ReadBackOperand(re, p, Print(n, 6) + rest);
      ReadBackOperand(re, x, Print(p, 6) + (Print(n, 6) + rest));
      TripleReads(re, x, p, n, rest);
  }

  lemma LiteralReads(re: Regex, s: string, rest: seq<string>)
    ensures Ev(re, 6, Print(Lit(s), 6) + rest) == GoOn(re, 6, Meaning(re, Lit(s)), rest)
  {
    hide Loop;
    var ts := Print(Lit(s), 6) + rest;
    if s in KEYWORDS || s == "(" || s == ")" {
      assert ts[0] == "quote" && ts[1..] == [s] + rest && ts[1..][0] == s && ts[1..][1..] == rest;
    } else {
      assert ts[0] == s && ts[1..] == rest;
      assert Ev(re, 7, ts) == Some((Str(s), rest));
    }
  }

  lemma CloseEnds(rest: seq<string>)
    ensures NoOperator(0, [")"] + rest) && NoOperator(1, [")"] + rest)
  {
  }

  lemma Parenthesised(re: Regex, e: Expr, rest: seq<string>)
    requires e.Bin?
    requires Ev(re, 0, Print(e, 0) + ([")"] + rest)) == if Meaning(re, e).None? then None else Some((Meaning(re, e).value, [")"] + rest))
    ensures Ev(re, 6, Print(e, 6) + rest) == GoOn(re, 6, Meaning(re, e), rest)
  {
    hide Loop, Meaning, Keyword;
    var inner := Print(e, 0);
    var ts := Print(e, 6) + rest;
    assert Print(e, 6) == ["("] + (inner + [")"]);
    assert ts == ["("] + (inner + ([")"] + rest));
    assert ts[0] == "(" && ts[1..] == inner + ([")"] + rest);
    assert ([")"] + rest)[1..] == rest;
    assert Ev(re, 6, ts) == Ev(re, 7, ts);
  }

  lemma LengthReads(re: Regex, x: Expr, rest: seq<string>)
    requires Ev(re, 6, Print(x, 6) + rest) == GoOn(re, 6, Meaning(re, x), rest)
    ensures Ev(re, 6, Print(Length(x), 6) + rest) == GoOn(re, 6, Meaning(re, Length(x)), rest)
  {
    hide Loop, ToString;
    var ts := Print(Length(x), 6) + rest;
    assert ts[0] == "length" && ts[1..] == Print(x, 6) + rest;
  }

  lemma PairReads(re: Regex, key: string, l: Expr, r: Expr, rest: seq<string>)
    requires key == "match" || key == "index"
    requires Ev(re, 6, Print(r, 6) + rest) == GoOn(re, 6, Meaning(re, r), rest)
    requires Ev(re, 6, Print(l, 6) + (Print(r, 6) + rest)) == GoOn(re, 6, Meaning(re, l), Print(r, 6) + rest)
    ensures var e := if key == "match" then Match(l, r) else Index(l, r);
            Ev(re, 6, Print(e, 6) + rest) == GoOn(re, 6, Meaning(re, e), rest)
  {
    hide Loop, ToString, IndexOf, Ev, Print;
    var e, a, b := if key == "match" then Match(l, r) else Index(l, r), Print(l, 6), Print(r, 6);
    PrintedPair(l, r);
    Regroup3([key], a, b, rest);
    KeywordAt(re, key, a + (b + rest));
  }

  lemma PrintedPair(l: Expr, r: Expr)
    ensures Print(Match(l, r), 6) == ["match"] + (Print(l, 6) + Print(r, 6)) && Print(Index(l, r), 6) == ["index"] + (Print(l, 6) + Print(r, 6))
  {
  }

  lemma Regroup3(k: seq<string>, a: seq<string>, b: seq<string>, rest: seq<string>)
    ensures k + (a + b) + rest == k + (a + (b + rest))
  {
    assert k + (a + b) + rest == k + ((a + b) + rest);
    assert (a + b) + rest == a + (b + rest);
  }

  lemma KeywordAt(re: Regex, key: string, ts: seq<string>)
    requires key in KEYWORDS
    ensures Ev(re, 6, [key] + ts) == Keyword(re, key, ts)
  {
    hide Keyword, Loop;
    assert ([key] + ts)[0] == key && ([key] + ts)[1..] == ts;
  }

  lemma TripleReads(re: Regex, x: Expr, p: Expr, n: Expr, rest: seq<string>)
    requires Ev(re, 6, Print(n, 6) + rest) == GoOn(re, 6, Meaning(re, n), rest)
    requires Ev(re, 6, Print(p, 6) + (Print(n, 6) + rest)) == GoOn(re, 6, Meaning(re, p), Print(n, 6) + rest)
    requires Ev(re, 6, Print(x, 6) + (Print(p, 6) + (Print(n, 6) + rest))) == GoOn(re, 6, Meaning(re, x), Print(p, 6) + (Print(n, 6) + rest))
    ensures var e := Substr(x, p, n); Ev(re, 6, Print(e, 6) + rest) == GoOn(re, 6, Meaning(re, e), rest)
  {
    hide Loop, ToString, Substring, Ev, Print;
    var e, a, b, c := Substr(x, p, n), Print(x, 6), Print(p, 6), Print(n, 6);
    PrintedTriple(x, p, n);
    Regroup3(["substr"], a, b + c, rest);
    Regroup3([], b, c, rest);
    assert [] + (b + c) + rest == b + c + rest && [] + (b + (c + rest)) == b + (c + rest);
    KeywordAt(re, "substr", a + (b + (c + rest)));
  }

  lemma PrintedTriple(x: Expr, p: Expr, n: Expr)
    ensures Print(Substr(x, p, n), 6) == ["substr"] + (Print(x, 6) + (Print(p, 6) + Print(n, 6)))
  {
  }

  /** The whole command line: the tokens of a tree give its value and nothing is left. */
  lemma ReadBack(re: Regex, e: Expr)
    ensures Ev(re, 0, Print(e, 0)) == if Meaning(re, e).None? then None else Some((Meaning(re, e).value, []))
  {
    hide Ev, Print, Meaning, GoOn;
    assert NoOperator(0, []) && NoOperator(1, []);
    ReadBackAt(re, e, 0, []);
    OperandEnds(re, 0, Meaning(re, e), []);
    assert Print(e, 0) + [] == Print(e, 0);
  }

  // ----- The evaluator -----

  /** The result of a call, and the tokens it left. */
  ghost predicate Returns(r: Option<Value>, left: seq<string>, want: Result) {
    if want.None? then r.None? else r == Some(want.value.0) && left == want.value.1
  }

  class Evaluator {
    const args: seq<string>
    const regex: Regex
    var pos: nat

    ghost function Left(): seq<string>
      reads this
      requires pos <= |args|
    {
      args[pos..]
    }

    constructor (args: seq<string>, regex: Regex)
      ensures this.args == args && this.regex == regex && pos == 0
    {
      this.args, this.regex, pos := args, regex, 0;
    }

    /** `nextarg`: whether the next token is this one. */
    predicate NextArg(s: string)
      reads this
    {
      pos < |args| && args[pos] == s
    }

    /** Bare operands and parentheses.  A failure ends the program. */
    method Eval7() returns (r: Option<Value>)
      requires pos <= |args|
      modifies this
      ensures pos <= |args| && old(pos) <= pos && Returns(r, Left(), Ev(regex, 7, old(Left())))
      decreases |args| - pos, 0, 0
    {
      hide Loop, Keyword;
      ghost var ts := Left();
      if pos == |args| {
        return None;
      }
      assert ts[0] == args[pos] && ts[1..] == args[pos + 1..];
      if NextArg("(") {
        pos := pos + 1;
        r := EvalLevel(0);
        if r.None? {
          return None;
        }
        if !NextArg(")") {
          return None;
        }
        assert Left()[1..] == args[pos + 1..];
        pos := pos + 1;
        return;
      }
      if NextArg(")") {
        return None;
      }
      r := Some(Str(args[pos]));
      pos := pos + 1;
    }

    /** Keywords. */
    method Eval6() returns (r: Option<Value>)
      requires pos <= |args|
      modifies this
      ensures pos <= |args| && old(pos) <= pos && Returns(r, Left(), Ev(regex, 6, old(Left())))
      decreases |args| - pos, 1, 0
    {
      hide Loop, Keyword;
      ghost var ts := Left();
      if pos == |args| || args[pos] !in KEYWORDS {
        r := Eval7();
        return;
      }
      var key := args[pos];
      assert ts[0] == key && ts[1..] == args[pos + 1..];
      pos := pos + 1;
      r := EvalKeyword(key);
    }

    method EvalKeyword(key: string) returns (r: Option<Value>)
      requires pos <= |args| && key in KEYWORDS
      modifies this
      ensures pos <= |args| && old(pos) <= pos && Returns(r, Left(), Keyword(regex, key, old(Left())))
      decreases |args| - pos, 2, 0
    {
      hide Ev, ToString, IndexOf, Substring;
      if key == "quote" {
        if pos == |args| {
          return None;
        }
        assert Left()[0] == args[pos] && Left()[1..] == args[pos + 1..];
        r := Some(Str(args[pos]));
        pos := pos + 1;
        return;
      }
      var l := Eval6();
      if l.None? {
        return None;
      }
      if key == "length" {
        return Some(Int(|ToString(l.value)|));
      }
      var m := Eval6();
      if m.None? {
        return None;
      }
      if key == "match" {
        r := regex(ToString(l.value), ToString(m.value));
      } else if key == "index" {
        r := Some(Int(IndexOf(ToString(l.value), ToString(m.value), 0)));
      } else {
        var n := Eval6();
        if n.None? {
          return None;
        }
        r := Some(Substring(l.value, m.value, n.value));
      }
    }

    /** The loops of `eval` (level 0) to `eval5` (level 5): the token cursor moves past each operator
        and its right operand. */
    method EvalLevel(level: nat) returns (r: Option<Value>)
      requires level <= 5 && pos <= |args|
      modifies this
      ensures pos <= |args| && old(pos) <= pos && Returns(r, Left(), Ev(regex, level, old(Left())))
      decreases |args| - pos, 10 - level, 0
    {
      hide Ev, Apply, Keyword, OpAt;
      ghost var ts := Left();
      LevelStarts(regex, level, ts);
      r := Operand(level);
      if r.None? {
        return;
      }
      while pos < |args| && OpAt(level, args[pos]).Some?
        invariant old(pos) < pos <= |args| && r.Some? && Ev(regex, level, ts) == Loop(regex, level, r.value, Left())
        decreases |args| - pos
      {
        ghost var at := Left();
        assert at[0] == args[pos] && at[1..] == args[pos + 1..];
        var op := OpAt(level, args[pos]).value;
        pos := pos + 1;
        var right := Operand(level);
        if right.None? {
          return None;
        }
        r := Apply(regex, op, r.value, right.value);
        if r.None? {
          return;
        }
      }
      assert pos < |args| ==> Left()[0] == args[pos];
    }

    /** An operand of a level is what the next level evaluates. */
    method Operand(level: nat) returns (r: Option<Value>)
      requires level <= 5 && pos <= |args|
      modifies this
      ensures pos <= |args| && old(pos) <= pos && Returns(r, Left(), Ev(regex, level + 1, old(Left()))) && (r.Some? ==> old(pos) < pos)
      decreases |args| - pos, 9 - level, 1
    {
      hide Keyword, Loop;
      ghost var ts := Left();
      if level < 5 {
        r := EvalLevel(level + 1);
      } else {
        r := Eval6();
      }
      if r.Some? { assert |Left()| < |ts|; }
    }
  }

  lemma LevelStarts(re: Regex, level: nat, ts: seq<string>)
    requires level <= 5
    ensures Ev(re, level, ts) == match Ev(re, level + 1, ts) case None => None case Some((l, rest)) => Loop(re, level, l, rest)
  {
    hide Loop, Keyword;
  }

  /** The value of all the tokens, if they make up one expression that has a value. */
  function Answer(re: Regex, ts: seq<string>): Option<Value> {
    match Ev(re, 0, ts)
    case None => None
    case Some((v, rest)) => if rest == [] then Some(v) else None
  }

  /** The program: the value of its arguments, or a failure. */
  method Run(args: seq<string>, regex: Regex) returns (r: Option<Value>)
    ensures r == Answer(regex, args)
  {
    hide Ev;
    var ev := new Evaluator(args, regex);
    assert ev.Left() == args;
    r := ev.EvalLevel(0);
    if ev.pos != |ev.args| {
      r := None;
    }
  }

  /** Main result: run on the tokens of a tree, the evaluator computes the value of the tree, or
      fails exactly when the tree has none. */
  method Evaluate(e: Expr, regex: Regex) returns (r: Option<Value>)
    ensures r == Meaning(regex, e)
  {
    hide Ev, Print, Meaning;
    ReadBack(regex, e);
    r := Run(Print(e, 0), regex);
  }
}
