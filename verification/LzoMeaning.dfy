/** Rewriting an LZO1X stream: which bytes the walk depends on, and why each of the five rewrites
    keeps what the stream decodes to. */
module LzoMeaning {
  import opened Bits
  import opened Copying
  import opened LzoFormat

  // ----- Which bytes a step depends on -----

  ghost predicate SameStart(b: seq<byte>, b': seq<byte>) {
    |b| == |b'| && (|b| > 0 ==> (b[0] > 17 <==> b'[0] > 17))
  }

  /** The streams agree in front of q. */
  ghost predicate Agree(b: seq<byte>, b': seq<byte>, q: nat) {
    SameStart(b, b') && q <= |b| && b'[..q] == b[..q]
  }

  /** The streams agree in front of q, except for the number of literals in byte q - 2. */
  ghost predicate AgreeLow(b: seq<byte>, b': seq<byte>, q: nat) {
    SameStart(b, b') && 2 <= q <= |b| && b'[..q - 2] == b[..q - 2] && b'[q - 2] / 4 == b[q - 2] / 4 && b'[q - 1] == b[q - 1]
  }

  lemma AgreeAt(b: seq<byte>, b': seq<byte>, q: nat, i: nat)
    requires Agree(b, b', q) && i < q
    ensures b'[i] == b[i]
  {
    assert b'[..q][i] == b[..q][i];
  }

  lemma AgreeLess(b: seq<byte>, b': seq<byte>, q: nat, p: nat)
    requires Agree(b, b', q) && p <= q
    ensures Agree(b, b', p)
  {
    assert b'[..p] == b'[..q][..p] && b[..p] == b[..q][..p];
  }

  lemma AgreeFromLow(b: seq<byte>, b': seq<byte>, q: nat, p: nat)
    requires AgreeLow(b, b', q) && p + 2 <= q
    ensures Agree(b, b', p)
  {
    assert b'[..p] == b'[..q - 2][..p] && b[..p] == b[..q - 2][..p];
  }

  lemma LowFromAgree(b: seq<byte>, b': seq<byte>, q: nat)
    requires Agree(b, b', q) && q >= 2
    ensures AgreeLow(b, b', q) && b'[q - 2] == b[q - 2]
  {
    AgreeLess(b, b', q, q - 2);
    AgreeAt(b, b', q, q - 2);
    AgreeAt(b, b', q, q - 1);
  }

  lemma {:induction false} ReadCountSame(b: seq<byte>, b': seq<byte>, ip: nat)
    requires ReadCount(b, ip).Some? && Agree(b, b', ReadCount(b, ip).value.1)
    ensures ReadCount(b', ip) == ReadCount(b, ip)
    decreases |b| - ip
  {
    hide Agree;
    var q := ReadCount(b, ip).value.1;
    AgreeAt(b, b', q, ip);
    AgreeSize(b, b', q);
    if b[ip] == 0 { ReadCountSame(b, b', ip + 1); }
  }

  lemma AgreeSize(b: seq<byte>, b': seq<byte>, q: nat)
    requires Agree(b, b', q)
    ensures |b'| == |b| && q <= |b|
  {
  }

  lemma CountSame(b: seq<byte>, b': seq<byte>, field: nat, base: nat, ip: nat, q: nat)
    requires Count(b, field, base, ip).Some? && Count(b, field, base, ip).value.1 <= q && Agree(b, b', q)
    ensures Count(b', field, base, ip) == Count(b, field, base, ip)
  {
    hide ReadCount, Agree;
    if field == 0 {
      AgreeLess(b, b', q, ReadCount(b, ip).value.1);
      ReadCountSame(b, b', ip);
    }
  }

  /** A match does not depend on the number of literals that it announces. */
  lemma ParseSame(b: seq<byte>, b': seq<byte>, mode: Mode, ip: nat)
    requires ip < |b| && Parse(b, mode, ip).Copy? && AgreeLow(b, b', Parse(b, mode, ip).next)
    ensures ip < |b'| && Parse(b', mode, ip) == Parse(b, mode, ip)
  {
    if b[ip] < 16 || b[ip] >= 64 {
      hide Count;
      SameClass(b[ip], b'[ip]);
    } else {
      hide Parse;
      LongParseSame(b, b', mode, ip);
    }
  }

  lemma LongParseSame(b: seq<byte>, b': seq<byte>, mode: Mode, ip: nat)
    requires ip < |b| && 16 <= b[ip] < 64 && Parse(b, mode, ip).Copy? && AgreeLow(b, b', Parse(b, mode, ip).next)
    ensures ip < |b'| && Parse(b', mode, ip) == Parse(b, mode, ip)
  {
    hide Count;
    var t: nat, q := b[ip], Parse(b, mode, ip).next - 2;
    AgreeFromLow(b, b', q + 2, q);
    LongParse(b, mode, ip);
    AgreeAt(b, b', q, ip);
    CountSame(b, b', if t >= 32 then t % 32 else t % 8, if t >= 32 then 31 else 7, ip + 1, q);
    assert Offset14(b', q) == Offset14(b, q);
  }

  lemma LongParse(b: seq<byte>, mode: Mode, ip: nat)
    requires ip < |b| && 16 <= b[ip] < 64 && Parse(b, mode, ip).Copy?
    ensures var t: nat, q := b[ip], Parse(b, mode, ip).next - 2;
            && ip < q
            && var r := Count(b, if t >= 32 then t % 32 else t % 8, if t >= 32 then 31 else 7, ip + 1);
               r.Some? && r.value.1 == q
  {
    hide Count;
  }

  lemma SameClass(t: nat, t': nat)
    requires t / 4 == t' / 4
    ensures t / 32 == t' / 32 && (t < 16 <==> t' < 16) && (t >= 64 <==> t' >= 64)
  {
    ByQuarter(t, t / 4);
    ByQuarter(t', t / 4);
  }

  lemma ByQuarter(t: nat, q: nat)
    requires q == t / 4
    ensures t / 32 == q / 8 && (t < 16 <==> q < 4) && (t >= 64 <==> q >= 16)
  {
    DivModUnique(t, 32, q / 8, 4 * (q % 8) + t % 4);
  }

  /** A step to the end of a match. */
  lemma MatchStepSame(b: seq<byte>, b': seq<byte>, cap: nat, c: Config)
    requires c.mode != Start && Step(b, cap, c).Next? && Step(b, cap, c).c.mode == MatchDone && AgreeLow(b, b', Step(b, cap, c).c.ip)
    ensures Step(b', cap, c) == Step(b, cap, c)
  {
    hide Parse, Count, CopyMatch;
    ParseSame(b, b', c.mode, c.ip);
    if c.mode == Top {
      var q := Step(b, cap, c).c.ip;
      if q > c.ip + 2 {
        AgreeFromLow(b, b', q, c.ip + 1);
        AgreeAt(b, b', c.ip + 1, c.ip);
      } else {
        SameClass(b[c.ip], b'[c.ip]);
      }
    }
  }

  /** A step over literals. */
  lemma LitStepSame(b: seq<byte>, b': seq<byte>, cap: nat, c: Config)
    requires c.mode != Start && Step(b, cap, c).Next? && Step(b, cap, c).c.mode != MatchDone && Agree(b, b', Step(b, cap, c).c.ip)
    ensures Step(b', cap, c) == Step(b, cap, c)
  {
    hide Parse, Count, CopyMatch;
    var q := Step(b, cap, c).c.ip;
    if c.mode == MatchDone {
      AgreeAt(b, b', q, c.ip - 2);
      assert b'[c.ip..q] == b'[..q][c.ip..q] && b[c.ip..q] == b[..q][c.ip..q];
    } else {
      AgreeAt(b, b', q, c.ip);
      CountSame(b, b', b[c.ip], 15, c.ip + 1, q);
      var p := Count(b, b[c.ip], 15, c.ip + 1).value.1;
      assert b'[p..q] == b'[..q][p..q] && b[p..q] == b[..q][p..q];
    }
  }

  // ----- Leading to a configuration -----

  /** Whatever bytes follow, the walk from the start comes by c. */
  ghost predicate Lead(b: seq<byte>, cap: nat, c: Config) {
    forall b': seq<byte> :: Agree(b, b', c.ip) ==> Decode(b', cap) == Finish(b', cap, c)
  }

  /** The same at the end of a match, however many literals it announces. */
  ghost predicate LeadLow(b: seq<byte>, cap: nat, c: Config) {
    forall b': seq<byte> :: AgreeLow(b, b', c.ip) ==> Decode(b', cap) == Finish(b', cap, c)
  }

  lemma FinishStep(b: seq<byte>, cap: nat, c: Config)
    requires c.ip <= |b| && Step(b, cap, c).Next?
    ensures Finish(b, cap, c) == Finish(b, cap, Step(b, cap, c).c)
  {
    hide Step;
  }

  lemma LeadStart(b: seq<byte>, cap: nat)
    requires Step(b, cap, START).Next?
    ensures Lead(b, cap, Step(b, cap, START).c)
  {
    hide Finish;
    var c := Step(b, cap, START).c;
    forall b': seq<byte> | Agree(b, b', c.ip) ensures Decode(b', cap) == Finish(b', cap, c) {
      if c.ip > 0 {
        AgreeAt(b, b', c.ip, 0);
        assert b'[1..c.ip] == b'[..c.ip][1..] && b[1..c.ip] == b[..c.ip][1..];
      }
      assert Step(b', cap, START) == Next(c);
      FinishStep(b', cap, START);
    }
  }

  lemma LeadRun(b: seq<byte>, cap: nat, c: Config)
    requires Lead(b, cap, c) && c.mode != Start && c.mode != MatchDone && Step(b, cap, c).Next? && Step(b, cap, c).c.mode != MatchDone
    requires c.ip <= Step(b, cap, c).c.ip
    ensures Lead(b, cap, Step(b, cap, c).c)
  {
    hide Step, Finish, Agree;
    var c' := Step(b, cap, c).c;
    forall b': seq<byte> | Agree(b, b', c'.ip) ensures Decode(b', cap) == Finish(b', cap, c') {
      AgreeSize(b, b', c'.ip);
      AgreeLess(b, b', c'.ip, c.ip);
      LitStepSame(b, b', cap, c);
      FinishStep(b', cap, c);
    }
  }

  lemma LeadMatch(b: seq<byte>, cap: nat, c: Config)
    requires Lead(b, cap, c) && c.mode != Start && Step(b, cap, c).Next? && Step(b, cap, c).c.mode == MatchDone
    ensures LeadLow(b, cap, Step(b, cap, c).c)
  {
    hide Step, Finish, Agree, AgreeLow;
    var c' := Step(b, cap, c).c;
    forall b': seq<byte> | AgreeLow(b, b', c'.ip) ensures Decode(b', cap) == Finish(b', cap, c') {
      AgreeFromLow(b, b', c'.ip, c.ip);
      AgreeSize(b, b', c.ip);
      MatchStepSame(b, b', cap, c);
      FinishStep(b', cap, c);
    }
  }

  lemma LeadLits(b: seq<byte>, cap: nat, c: Config)
    requires LeadLow(b, cap, c) && c.mode == MatchDone && Step(b, cap, c).Next? && c.ip >= 2
    requires c.ip <= Step(b, cap, c).c.ip && Step(b, cap, c).c.mode != MatchDone
    ensures Lead(b, cap, Step(b, cap, c).c)
  {
    hide Step, Finish, Agree, AgreeLow;
    var c' := Step(b, cap, c).c;
    forall b': seq<byte> | Agree(b, b', c'.ip) ensures Decode(b', cap) == Finish(b', cap, c') {
      AgreeSize(b, b', c'.ip);
      AgreeLess(b, b', c'.ip, c.ip);
      LowFromAgree(b, b', c.ip);
      LitStepSame(b, b', cap, c);
      FinishStep(b', cap, c);
    }
  }

  /** A changed stream that agrees where it has to. */
  lemma LeadCarries(b: seq<byte>, b': seq<byte>, cap: nat, c: Config)
    requires Lead(b, cap, c) && Agree(b, b', c.ip)
    ensures Lead(b', cap, c)
  {
    hide Finish, Decode;
    forall x: seq<byte> | Agree(b', x, c.ip) ensures Decode(x, cap) == Finish(x, cap, c) {
      assert Agree(b, x, c.ip);
    }
  }

  lemma LeadLowCarries(b: seq<byte>, b': seq<byte>, cap: nat, c: Config)
    requires LeadLow(b, cap, c) && AgreeLow(b, b', c.ip)
    ensures LeadLow(b', cap, c)
  {
    hide Finish, Decode;
    forall x: seq<byte> | AgreeLow(b', x, c.ip) ensures Decode(x, cap) == Finish(x, cap, c) {
      assert AgreeLow(b, x, c.ip);
    }
  }

  // ----- What follows -----

  ghost predicate SameTail(b: seq<byte>, b': seq<byte>, p: nat) {
    |b| == |b'| && p <= |b| && b'[p..] == b[p..]
  }

  lemma TailAt(b: seq<byte>, b': seq<byte>, p: nat, i: nat)
    requires SameTail(b, b', p) && p <= i < |b|
    ensures b'[i] == b[i]
  {
    assert b'[p..][i - p] == b[p..][i - p];
  }

  lemma TailMore(b: seq<byte>, b': seq<byte>, p: nat, q: nat)
    requires SameTail(b, b', p) && p <= q <= |b|
    ensures SameTail(b, b', q)
  {
    assert b'[q..] == b'[p..][q - p..] && b[q..] == b[p..][q - p..];
  }

  lemma TailSlice(b: seq<byte>, b': seq<byte>, p: nat, i: nat, j: nat)
    requires SameTail(b, b', p) && p <= i <= j <= |b|
    ensures b'[i..j] == b[i..j]
  {
    SliceOfTail(b, p, i, j);
    SliceOfTail(b', p, i, j);
  }

  lemma SliceOfTail(b: seq<byte>, p: nat, i: nat, j: nat)
    requires p <= i <= j <= |b|
    ensures b[p..][i - p..j - p] == b[i..j]
  {
  }

  lemma {:induction false} ReadCountTail(b: seq<byte>, b': seq<byte>, p: nat, ip: nat)
    requires SameTail(b, b', p) && p <= ip
    ensures ReadCount(b', ip) == ReadCount(b, ip)
    decreases |b| - ip
  {
    hide SameTail;
    TailSize(b, b', p);
    if ip < |b| {
      TailAt(b, b', p, ip);
      if b[ip] == 0 { ReadCountTail(b, b', p, ip + 1); }
    }
  }

  lemma TailSize(b: seq<byte>, b': seq<byte>, p: nat)
    requires SameTail(b, b', p)
    ensures |b'| == |b| && p <= |b|
  {
  }

  lemma ParseTail(b: seq<byte>, b': seq<byte>, mode: Mode, p: nat, ip: nat)
    requires SameTail(b, b', p) && p <= ip < |b|
    ensures |b'| == |b| && Parse(b', mode, ip) == Parse(b, mode, ip)
  {
    hide SameTail, Count;
    TailSize(b, b', p);
    CountTail(b, b', p, b[ip] % 32, 31, ip + 1);
    CountTail(b, b', p, b[ip] % 8, 7, ip + 1);
    forall i | ip <= i < |b| ensures b'[i] == b[i] { TailAt(b, b', p, i); }
  }

  lemma CountTail(b: seq<byte>, b': seq<byte>, p: nat, field: nat, base: nat, ip: nat)
    requires SameTail(b, b', p) && p <= ip
    ensures Count(b', field, base, ip) == Count(b, field, base, ip)
  {
    hide SameTail;
    TailSize(b, b', p);
    ReadCountTail(b, b', p, ip);
  }

  lemma LitsTail(b: seq<byte>, b': seq<byte>, p: nat, c: Config, mode: Mode, from: nat, n: nat)
    requires SameTail(b, b', p) && p <= from <= |b|
    ensures |b'| == |b| && Lits(b', c, mode, from, n) == Lits(b, c, mode, from, n)
  {
    hide SameTail;
    TailSize(b, b', p);
    if from + n <= |b| { TailSlice(b, b', p, from, from + n); }
  }

  lemma StepTail(b: seq<byte>, b': seq<byte>, cap: nat, c: Config)
    requires SameTail(b, b', if c.mode == MatchDone && 2 <= c.ip then c.ip - 2 else c.ip)
    ensures Step(b', cap, c) == Step(b, cap, c)
  {
    hide Parse, TakeMatch, Lits, Count, SameTail;
    var p := if c.mode == MatchDone && 2 <= c.ip then c.ip - 2 else c.ip;
    TailSize(b, b', p);
    if p < |b| { TailAt(b, b', p, p); }
    if c.ip < |b| { ParseTail(b, b', c.mode, p, c.ip); }
    match c.mode
    case Start =>
      if c.ip == 0 && |b| > 0 && b[0] > 17 {
        LitsTail(b, b', p, c, if b[0] - 17 < 4 then AfterLits else AfterRun, 1, b[0] - 17);
      }
    case MatchDone =>
      if 2 <= c.ip <= |b| { LitsTail(b, b', p, c, AfterLits, c.ip, b[p] % 4); }
    case Top =>
      if c.ip < |b| {
        var n := Count(b, b[p], 15, c.ip + 1);
        CountTail(b, b', p, b[p], 15, c.ip + 1);
        if n.Some? && b[p] < 16 { LitsTail(b, b', p, c, AfterRun, n.value.1, n.value.0 + 3); }
      }
    case _ =>
  }

  /** The rest of the walk depends only on the bytes that are still ahead. */
  lemma {:induction false} FinishTail(b: seq<byte>, b': seq<byte>, cap: nat, c: Config)
    requires SameTail(b, b', if c.mode == MatchDone && 2 <= c.ip then c.ip - 2 else c.ip)
    ensures Finish(b', cap, c) == Finish(b, cap, c)
    decreases Measure(b, c)
  {
    hide Step, SameTail;
    var p := if c.mode == MatchDone && 2 <= c.ip then c.ip - 2 else c.ip;
    TailSize(b, b', p);
    StepTail(b, b', cap, c);
    if c.ip <= |b| && Step(b, cap, c).Next? {
      var c' := Step(b, cap, c).c;
      StepAdvances(b, cap, c);
      TailMore(b, b', p, if c'.mode == MatchDone && 2 <= c'.ip then c'.ip - 2 else c'.ip);
      FinishTail(b, b', cap, c');
    }
  }

  lemma StepAdvances(b: seq<byte>, cap: nat, c: Config)
    requires Step(b, cap, c).Next?
    ensures var c' := Step(b, cap, c).c; c.ip <= c'.ip <= |b| && (c'.mode == MatchDone ==> c.ip + 2 <= c'.ip)
  {
    hide CopyMatch;
  }

  // ----- Anchors -----

  /** What may be changed behind the walk.  With lit at most three, litp is the byte of the last
      match that holds the number of literals since; otherwise it is the opcode of the last long
      literal run.  A negative litp allows no change.  `outP` is the output at that point. */
  ghost predicate Anchored(b: seq<byte>, cap: nat, c: Config, litp: int, lit: nat, outP: seq<byte>) {
    if litp < 0 then Lead(b, cap, c)
    else if lit <= 3 then ShortAnchor(b, cap, c, litp, lit, outP)
    else if lit <= 18 then LongAnchor(b, cap, c, litp, lit, outP)
    else c.mode == AfterRun && Lead(b, cap, c)
  }

  ghost predicate ShortAnchor(b: seq<byte>, cap: nat, c: Config, litp: nat, lit: nat, outP: seq<byte>) {
    && 1 <= litp && litp + 2 + lit == c.ip <= |b| && b[litp] % 4 == lit <= 3
    && c.out == outP + b[litp + 2..c.ip] && LeadLow(b, cap, Config(MatchDone, litp + 2, outP))
    && (c.mode == (if lit == 0 then Top else AfterLits) || (c.mode == Top && lit == 3 && c.ip < |b| && b[c.ip] >= 16))
  }

  ghost predicate LongAnchor(b: seq<byte>, cap: nat, c: Config, litp: nat, lit: nat, outP: seq<byte>) {
    && c.mode == AfterRun && 4 <= lit <= 18 && litp + 1 + lit == c.ip <= |b| && b[litp] == lit - 3
    && c.out == outP + b[litp + 1..c.ip] && |outP| <= cap && Lead(b, cap, Config(Top, litp, outP))
  }

  /** The mode in which a plain walk would be. */
  function PlainMode(mode: Mode, litp: int, lit: nat): Mode {
    if litp >= 0 && lit == 3 then AfterLits else mode
  }

  lemma AnchorLead(b: seq<byte>, cap: nat, c: Config, litp: int, lit: nat, outP: seq<byte>)
    requires Anchored(b, cap, c, litp, lit, outP)
    ensures Lead(b, cap, c.(mode := PlainMode(c.mode, litp, lit)))
  {
    hide Lead, LeadLow, Finish, Parse, ReadCount, CopyMatch;
    if litp >= 0 && lit <= 3 {
      LitsAt(b, cap, litp, lit, outP);
      LeadLits(b, cap, Config(MatchDone, litp + 2, outP));
    } else if litp >= 0 && lit <= 18 {
      RunAt(b, cap, Config(Top, litp, outP), lit);
      LeadRun(b, cap, Config(Top, litp, outP));
    }
  }

  lemma LitsAt(b: seq<byte>, cap: nat, litp: nat, lit: nat, outP: seq<byte>)
    requires litp + 2 + lit <= |b| && b[litp] % 4 == lit
    ensures Step(b, cap, Config(MatchDone, litp + 2, outP))
         == Next(Config(if lit == 0 then Top else AfterLits, litp + 2 + lit, outP + b[litp + 2..litp + 2 + lit]))
  {
    assert lit == 0 ==> outP + b[litp + 2..litp + 2 + lit] == outP;
  }

  lemma RunAt(b: seq<byte>, cap: nat, c: Config, lit: nat)
    requires c.mode == Top && 4 <= lit <= 18 && c.ip + 1 + lit <= |b| && b[c.ip] == lit - 3 && |c.out| <= cap
    ensures Step(b, cap, c) == Next(Config(AfterRun, c.ip + 1 + lit, c.out + b[c.ip + 1..c.ip + 1 + lit]))
  {
  }

  /** The plain walk goes on as the optimizer does. */
  lemma SameMode(b: seq<byte>, cap: nat, c: Config, litp: int, lit: nat, outP: seq<byte>)
    requires Anchored(b, cap, c, litp, lit, outP)
    ensures Step(b, cap, c.(mode := PlainMode(c.mode, litp, lit))) == Step(b, cap, c)
    ensures Finish(b, cap, c.(mode := PlainMode(c.mode, litp, lit))) == Finish(b, cap, c)
  {
    hide Lead, LeadLow, ReadCount, CopyMatch;
    var c' := c.(mode := PlainMode(c.mode, litp, lit));
    if c'.mode != c.mode {
      assert Parse(b, Top, c.ip) == Parse(b, AfterLits, c.ip);
      assert Step(b, cap, c') == Step(b, cap, c);
    }
  }

  /** At every point the stream as it now is decodes to what is still to come. */
  lemma AnchorDecode(b: seq<byte>, cap: nat, c: Config, litp: int, lit: nat, outP: seq<byte>)
    requires Anchored(b, cap, c, litp, lit, outP) && c.ip <= |b|
    ensures Decode(b, cap) == Finish(b, cap, c)
  {
    hide Finish, Decode, Anchored;
    AnchorLead(b, cap, c, litp, lit, outP);
    SameMode(b, cap, c, litp, lit, outP);
    assert Agree(b, b, c.ip);
  }

  // ----- Going on without a rewrite -----

  /** Only the first instruction begins at 0. */
  ghost predicate AtStart(b: seq<byte>, c: Config) {
    c.ip == 0 ==> c.mode == Top && |b| > 0 && b[0] <= 17
  }

  /** After a match: its end, with the literals it announces. */
  lemma MatchAnchor(b: seq<byte>, cap: nat, c: Config, litp: int, lit: nat, outP: seq<byte>, c1: Config, c2: Config)
    requires Anchored(b, cap, c, litp, lit, outP) && c.mode != Start && c.mode != MatchDone && AtStart(b, c)
    requires Step(b, cap, c) == Next(c1) && c1.mode == MatchDone && Step(b, cap, c1) == Next(c2)
    ensures Anchored(b, cap, c2, c1.ip - 2, b[c1.ip - 2] % 4, c1.out)
    ensures Finish(b, cap, c2) == Finish(b, cap, c) && c.ip < c2.ip
  {
    hide Finish, Anchored, Lead, LeadLow, Parse, CopyMatch, ReadCount;
    var p := c.(mode := PlainMode(c.mode, litp, lit));
    AnchorLead(b, cap, c, litp, lit, outP);
    SameMode(b, cap, c, litp, lit, outP);
    LeadMatch(b, cap, p);
    LitpPositive(b, cap, c, c1);
    FinishStep(b, cap, c);
    FinishStep(b, cap, c1);
    MakeShort(b, cap, c1, c2);
  }

  lemma LitpPositive(b: seq<byte>, cap: nat, c: Config, c1: Config)
    requires c.mode != Start && c.mode != MatchDone && AtStart(b, c) && Step(b, cap, c) == Next(c1) && c1.mode == MatchDone
    ensures 3 <= c1.ip && c.ip + 2 <= c1.ip <= |b| && c.ip < |b|
  {
    hide CopyMatch, Count;
    if c.ip == 0 && b[0] >= 16 { LongParse(b, c.mode, 0); }
  }

  lemma MakeShort(b: seq<byte>, cap: nat, c1: Config, c2: Config)
    requires c1.mode == MatchDone && 3 <= c1.ip <= |b| && LeadLow(b, cap, c1) && Step(b, cap, c1) == Next(c2)
    ensures Anchored(b, cap, c2, c1.ip - 2, b[c1.ip - 2] % 4, c1.out) && c1.ip <= c2.ip
  {
    hide Lead, LeadLow;
  }

  /** After a long literal run. */
  lemma RunAnchor(b: seq<byte>, cap: nat, c: Config, litp: int, lit: nat, outP: seq<byte>, c1: Config, n: nat)
    requires Anchored(b, cap, c, litp, lit, outP) && c.mode == Top && c.ip < |b| && b[c.ip] < 16 && Step(b, cap, c) == Next(c1)
    requires Count(b, b[c.ip], 15, c.ip + 1).Some? && n == Count(b, b[c.ip], 15, c.ip + 1).value.0
    ensures Anchored(b, cap, c1, c.ip, n + 3, c.out) && Finish(b, cap, c1) == Finish(b, cap, c) && c.ip < c1.ip
  {
    hide Finish, Lead, LeadLow, ReadCount;
    AnchorLead(b, cap, c, litp, lit, outP);
    LeadRun(b, cap, c);
    FinishStep(b, cap, c);
    if b[c.ip] == 0 { CountLarge(b, c.ip + 1); }
  }

  lemma CountLarge(b: seq<byte>, ip: nat)
    requires ReadCount(b, ip).Some?
    ensures ReadCount(b, ip).value.0 >= 1
  {
  }

  // ----- The rewrites -----

  /** A short match at c that announces no literals; it ends at `next`. */
  ghost predicate Removable(b: seq<byte>, cap: nat, c: Config, next: nat, w: seq<byte>) {
    && c.mode != Start && c.mode != MatchDone && c.ip + 2 <= next < |b| && b[next - 2] % 4 == 0
    && Step(b, cap, c) == Next(Config(MatchDone, next, c.out + w))
  }

  lemma RemovedFinish(b: seq<byte>, cap: nat, c: Config, next: nat, w: seq<byte>)
    requires Removable(b, cap, c, next, w)
    ensures Finish(b, cap, c) == Finish(b, cap, Config(Top, next, c.out + w))
  {
    hide Finish, Parse, CopyMatch, ReadCount;
    FinishStep(b, cap, c);
    FinishStep(b, cap, Config(MatchDone, next, c.out + w));
  }

  /** What a walk that ends needs of the output so far. */
  lemma RestWithinCap(b: seq<byte>, cap: nat, c: Config)
    requires c.mode == Top && Finish(b, cap, c).Some?
    ensures |c.out| <= cap && c.ip < |b|
  {
    hide Parse, CopyMatch, ReadCount;
  }

  /** One byte changed at litp, and the bytes from ip on overwritten by w. */
  function Overwrite(b: seq<byte>, litp: nat, v: byte, ip: nat, w: seq<byte>): (r: seq<byte>)
    requires litp < ip && ip + |w| <= |b|
    ensures |r| == |b|
  {
    b[..litp] + [v] + b[litp + 1..ip] + w + b[ip + |w|..]
  }

  lemma OverwriteParts(b: seq<byte>, litp: nat, v: byte, ip: nat, w: seq<byte>)
    requires litp < ip && ip + |w| <= |b|
    ensures var b' := Overwrite(b, litp, v, ip, w);
            && b'[..litp] == b[..litp] && b'[litp] == v && b'[litp + 1..ip + |w|] == b[litp + 1..ip] + w && SameTail(b, b', ip + |w|)
            && (forall i :: 0 <= i < ip && i != litp ==> b'[i] == b[i])
  {
    var b', r := Overwrite(b, litp, v, ip, w), b[litp + 1..ip] + w;
    assert b' == b[..litp] + ([v] + (r + b[ip + |w|..]));
    assert b'[litp + 1..ip + |w|] == r;
  }

  /** Two or three literals in place of a match that lies between two matches: the match before
      now announces three literals. */
  lemma BetweenMatches(b: seq<byte>, cap: nat, c: Config, litp: nat, lit: nat, outP: seq<byte>, w: seq<byte>)
    requires ShortAnchor(b, cap, c, litp, lit, outP) && lit + |w| == 3 && Removable(b, cap, c, c.ip + |w|, w) && b[c.ip + |w|] >= 16
    ensures b[litp] / 4 * 4 + 3 < 256
    ensures var b', c' := Overwrite(b, litp, b[litp] / 4 * 4 + 3, c.ip, w), Config(Top, c.ip + |w|, c.out + w);
            Anchored(b', cap, c', litp, 3, outP) && Finish(b', cap, c') == Finish(b, cap, c)
  {
    hide Finish, LeadLow, Lead, Step;
    var next, v := c.ip + |w|, b[litp] / 4 * 4 + 3;
    var b', c' := Overwrite(b, litp, v, c.ip, w), Config(Top, next, c.out + w);
    OverwriteParts(b, litp, v, c.ip, w);
    RemovedFinish(b, cap, c, next, w);
    FinishTail(b, b', cap, c');
    LeadLowCarries(b, b', cap, Config(MatchDone, litp + 2, outP));
    OverwrittenOut(b, b', litp + 2, c.ip, next, outP, w);
    TailAt(b, b', next, next);
  }

  lemma OverwrittenOut(b: seq<byte>, b': seq<byte>, q: nat, ip: nat, next: nat, outP: seq<byte>, w: seq<byte>)
    requires 1 <= q <= ip && next == ip + |w| <= |b| == |b'|
    requires b'[q - 1..next] == b[q - 1..ip] + w
    ensures outP + b[q..ip] + w == outP + b'[q..next]
  {
    assert b'[q..next] == b'[q - 1..next][1..];
    assert b[q..ip] == b[q - 1..ip][1..];
    assert (b[q - 1..ip] + w)[1..] == b[q - 1..ip][1..] + w;
  }

  /** Three literals in place of a match of two bytes and the opcode of the literal run behind it:
      one literal run instead of two. */
  lemma BetweenRuns(b: seq<byte>, cap: nat, c: Config, litp: nat, lit: nat, outP: seq<byte>, w: seq<byte>, t: nat)
    requires LongAnchor(b, cap, c, litp, lit, outP) && |w| == 3 && Removable(b, cap, c, c.ip + 2, w)
    requires t == b[c.ip + 2] && 1 <= t && lit + 3 + t < 16 && c.ip + 3 + t + 3 <= |b| && |c.out + w| <= cap
    ensures var b', ip' := Overwrite(b, litp, lit + 3 + t, c.ip, w), c.ip + 3 + t + 3;
            var c' := Config(AfterRun, ip', c.out + w + b[c.ip + 3..ip']);
            Anchored(b', cap, c', litp, lit + 3 + t + 3, outP) && Finish(b', cap, c') == Finish(b, cap, c)
  {
    hide Finish, LeadLow, Lead, Step;
    var v, mid, ip' := lit + 3 + t, c.ip + 3, c.ip + 3 + t + 3;
    var b', c' := Overwrite(b, litp, v, c.ip, w), Config(AfterRun, ip', c.out + w + b[mid..ip']);
    OverwriteParts(b, litp, v, c.ip, w);
    RemovedFinish(b, cap, c, c.ip + 2, w);
    RunAt(b, cap, Config(Top, c.ip + 2, c.out + w), t + 3);
    FinishStep(b, cap, Config(Top, c.ip + 2, c.out + w));
    TailMore(b, b', mid, ip');
    FinishTail(b, b', cap, c');
    assert Agree(b, b', litp);
    LeadCarries(b, b', cap, Config(Top, litp, outP));
    TailSlice(b, b', mid, mid, ip');
    JoinedOut(b', outP, b[litp + 1..c.ip], w, litp + 1, mid, ip');
  }

  lemma JoinedOut(b: seq<byte>, outP: seq<byte>, lits: seq<byte>, w: seq<byte>, from: nat, mid: nat, end: nat)
    requires from <= mid <= end <= |b| && b[from..mid] == lits + w
    ensures outP + lits + w + b[mid..end] == outP + b[from..end]
  {
    assert b[from..end] == b[from..mid] + b[mid..end];
    assert outP + lits + w == outP + (lits + w);
  }

  /** The match before announces no literals; a literal run takes in its literals, those that
      replace the match at ip, and the run behind. */
  function Merge(b: seq<byte>, litp: nat, v: byte, ip: nat, w: seq<byte>): (r: seq<byte>)
    requires litp + 2 <= ip && ip + |w| + 1 <= |b|
    ensures |r| == |b|
  {
    b[..litp] + [b[litp] / 4 * 4, b[litp + 1], v] + b[litp + 2..ip] + w + b[ip + |w| + 1..]
  }

  lemma MergeParts(b: seq<byte>, litp: nat, v: byte, ip: nat, w: seq<byte>)
    requires litp + 2 <= ip && ip + |w| + 1 <= |b|
    ensures var b', end := Merge(b, litp, v, ip, w), ip + |w| + 1;
            && b'[..litp] == b[..litp] && b'[litp] == b[litp] / 4 * 4 && b'[litp + 1] == b[litp + 1] && b'[litp + 2] == v
            && b'[litp + 3..end] == b[litp + 2..ip] + w && SameTail(b, b', end)
  {
    var b', r, head := Merge(b, litp, v, ip, w), b[litp + 2..ip] + w, [b[litp] / 4 * 4, b[litp + 1], v];
    assert b' == b[..litp] + (head + (r + b[ip + |w| + 1..]));
    assert b'[litp + 3..ip + |w| + 1] == r;
  }

  lemma BeforeRun(b: seq<byte>, cap: nat, c: Config, litp: nat, lit: nat, outP: seq<byte>, w: seq<byte>, t: nat)
    requires ShortAnchor(b, cap, c, litp, lit, outP) && Removable(b, cap, c, c.ip + |w|, w)
    requires t == b[c.ip + |w|] && 1 <= t && lit + |w| + t < 16 && c.ip + |w| + 1 + t + 3 <= |b| && |c.out + w| <= cap
    ensures var b', ip' := Merge(b, litp, lit + |w| + t, c.ip, w), c.ip + |w| + 1 + t + 3;
            var c' := Config(AfterRun, ip', c.out + w + b[c.ip + |w| + 1..ip']);
            Anchored(b', cap, c', litp + 2, lit + |w| + t + 3, outP) && Finish(b', cap, c') == Finish(b, cap, c)
  {
    hide Finish, LeadLow, Lead, Step, Removable, Merge, SameTail;
    var v, mid, ip' := lit + |w| + t, c.ip + |w| + 1, c.ip + |w| + 1 + t + 3;
    var b' := Merge(b, litp, v, c.ip, w);
    MergeParts(b, litp, v, c.ip, w);
    RunRemoved(b, b', cap, c, w, t);
    MergedLead(b, b', cap, litp, outP);
    TailSlice(b, b', mid, mid, ip');
    JoinedOut(b', outP, b[litp + 2..c.ip], w, litp + 3, mid, ip');
  }

  /** The walk behind the run does not see that the match before it is gone. */
  lemma RunRemoved(b: seq<byte>, b': seq<byte>, cap: nat, c: Config, w: seq<byte>, t: nat)
    requires Removable(b, cap, c, c.ip + |w|, w) && SameTail(b, b', c.ip + |w| + 1)
    requires c.ip + |w| + 1 + t + 3 <= |b| && t == b[c.ip + |w|] && 1 <= t <= 15 && |c.out + w| <= cap
    ensures var ip' := c.ip + |w| + 1 + t + 3;
            Finish(b', cap, Config(AfterRun, ip', c.out + w + b[c.ip + |w| + 1..ip'])) == Finish(b, cap, c)
  {
    hide Finish, Step, Removable, SameTail;
    var next, ip' := c.ip + |w|, c.ip + |w| + 1 + t + 3;
    RemovedFinish(b, cap, c, next, w);
    RunAt(b, cap, Config(Top, next, c.out + w), t + 3);
    FinishStep(b, cap, Config(Top, next, c.out + w));
    TailMore(b, b', next + 1, ip');
    FinishTail(b, b', cap, Config(AfterRun, ip', c.out + w + b[next + 1..ip']));
  }

  /** The match before announces no literals any more, so a run may begin behind it. */
  lemma MergedLead(b: seq<byte>, b': seq<byte>, cap: nat, litp: nat, outP: seq<byte>)
    requires 1 <= litp && litp + 2 <= |b| == |b'| && b'[..litp] == b[..litp] && b'[litp] == b[litp] / 4 * 4 && b'[litp + 1] == b[litp + 1]
    requires LeadLow(b, cap, Config(MatchDone, litp + 2, outP))
    ensures Lead(b', cap, Config(Top, litp + 2, outP))
  {
    hide LeadLow, Lead, Step;
    var m := Config(MatchDone, litp + 2, outP);
    StillStarts(b, b', litp);
    LeadLowCarries(b, b', cap, m);
    LitsAt(b', cap, litp, 0, outP);
    assert outP + b'[litp + 2..litp + 2] == outP;
    LeadLits(b', cap, m);
  }

  lemma StillStarts(b: seq<byte>, b': seq<byte>, litp: nat)
    requires 1 <= litp && litp + 2 <= |b| == |b'| && b'[..litp] == b[..litp] && b'[litp] == b[litp] / 4 * 4 && b'[litp + 1] == b[litp + 1]
    ensures AgreeLow(b, b', litp + 2)
  {
    assert b'[0] == b'[..litp][0] && b[0] == b[..litp][0];
  }
}
