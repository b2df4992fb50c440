/** The LZO1X stream format as a plain walk reads it: `lzo1x_optimize` without its rewriting
    branches, one instruction at a time. */
module LzoFormat {
  import opened Bits
  import opened Copying

  /** What the walk expects next.  Between a match and the literals it announces the walk is in
      `MatchDone`; `Top` follows a match without literals, `AfterLits` one with one to three
      literals, and `AfterRun` a long literal run. */
  datatype Mode = Start | Top | AfterRun | AfterLits | MatchDone

  datatype Config = Config(mode: Mode, ip: nat, out: seq<byte>)

  datatype Outcome = Next(c: Config) | Eof(end: nat) | Fail

  datatype Instr = Copy(off: nat, len: nat, next: nat) | EndMark(next: nat) | Bad

  /** An extended length: zero bytes count 255 each, the first other byte ends it. */
  function ReadCount(b: seq<byte>, ip: nat): (r: Option<(nat, nat)>)
    ensures r.Some? ==> ip < r.value.1 <= |b| && r.value.0 <= 255 * (r.value.1 - ip)
    decreases |b| - ip
  {
    if ip >= |b| then None
    else if b[ip] != 0 then Some((b[ip], ip + 1))
    else
      match ReadCount(b, ip + 1)
      case None => None
      case Some((n, next)) => Some((255 + n, next))
  }

  /** A count in an opcode: zero means that an extended length follows. */
  function Count(b: seq<byte>, field: nat, base: nat, ip: nat): (r: Option<(nat, nat)>)
    ensures r.Some? ==> ip <= r.value.1 && (r.value.1 <= |b| || r.value.1 == ip)
  {
    if field != 0 then Some((field, ip))
    else
      match ReadCount(b, ip)
      case None => None
      case Some((n, next)) => Some((base + n, next))
  }

  /** The two offset bytes of a long match. */
  function Offset14(b: seq<byte>, ip: nat): nat
    requires ip + 1 < |b|
  {
    var lo: nat, hi: nat := b[ip], b[ip + 1];
    lo / 4 + hi * 64
  }

  /** The match at ip, whose meaning for small opcodes depends on what came before. */
  function Parse(b: seq<byte>, mode: Mode, ip: nat): (r: Instr)
    requires ip < |b|
    ensures r.Copy? ==> ip + 2 <= r.next <= |b| && r.off >= 1 && r.len >= 2
    ensures r.EndMark? ==> ip < r.next <= |b|
  {
    var t: nat := b[ip];
    if t < 16 || t >= 64 then
      if ip + 1 >= |b| then Bad
      else
        var x: nat := b[ip + 1];
        if t >= 64 then Copy(1 + t / 4 % 8 + x * 8, t / 32 + 1, ip + 2)
        else if mode == AfterRun then Copy(0x801 + t / 4 + x * 4, 3, ip + 2)
        else Copy(1 + t / 4 + x * 4, 2, ip + 2)
    else if t >= 32 then
      match Count(b, t % 32, 31, ip + 1)
      case None => Bad
      case Some((n, p)) => if p + 1 >= |b| then Bad else Copy(1 + Offset14(b, p), n + 2, p + 2)
    else
      match Count(b, t % 8, 7, ip + 1)
      case None => Bad
      case Some((n, p)) =>
        if p + 1 >= |b| then Bad
        else
          var off := (if t % 16 >= 8 then 0x4000 else 0) + Offset14(b, p);
          if off == 0 then EndMark(p + 2) else Copy(off + 0x4000, n + 2, p + 2)
  }

  function Lits(b: seq<byte>, c: Config, mode: Mode, from: nat, n: nat): (r: Outcome)
    requires from <= |b|
    ensures r.Next? ==> r.c.ip == from + n <= |b| && r.c.mode == mode
  {
    if from + n > |b| then Fail else Next(Config(mode, from + n, c.out + b[from..from + n]))
  }

  function TakeMatch(c: Config, i: Instr): Outcome {
    match i
    case Bad => Fail
    case EndMark(next) => Eof(next)
    case Copy(off, len, next) =>
      if 1 <= off <= |c.out| then Next(Config(MatchDone, next, CopyMatch(c.out, off, len))) else Fail
  }

  /** One step.  `cap` is the size given for the output, which is only looked at between
      instructions. */
  function Step(b: seq<byte>, cap: nat, c: Config): (r: Outcome)
    ensures r.Next? ==> r.c.mode != Start && r.c.ip <= |b| && (c.ip <= |b| ==> Measure(b, r.c) < Measure(b, c))
    ensures r.Next? && r.c.mode == MatchDone ==> r.c.ip >= c.ip + 2
  {
    match c.mode
    case Start =>
      if |b| == 0 || c.ip != 0 then Fail
      else if b[0] <= 17 then Next(Config(Top, 0, c.out))
      else Lits(b, c, if b[0] - 17 < 4 then AfterLits else AfterRun, 1, b[0] - 17)
    case MatchDone =>
      if c.ip < 2 || c.ip > |b| then Fail
      else
        var nl := b[c.ip - 2] % 4;
        if nl == 0 then Next(Config(Top, c.ip, c.out)) else Lits(b, c, AfterLits, c.ip, nl)
    case Top =>
      if c.ip >= |b| || |c.out| > cap then Fail
      else if b[c.ip] < 16 then
        match Count(b, b[c.ip], 15, c.ip + 1)
        case None => Fail
        case Some((n, p)) => Lits(b, c, AfterRun, p, n + 3)
      else TakeMatch(c, Parse(b, c.mode, c.ip))
    case AfterRun => if c.ip >= |b| then Fail else TakeMatch(c, Parse(b, c.mode, c.ip))
    case AfterLits => if c.ip >= |b| || |c.out| > cap then Fail else TakeMatch(c, Parse(b, c.mode, c.ip))
  }

  function Measure(b: seq<byte>, c: Config): nat {
    if c.ip > |b| then 0
    else 3 * (|b| - c.ip) + if c.mode == Start then 2 else if c.mode == MatchDone then 1 else 0
  }

  /** The output and the end of the stream, if the walk from c finds the end marker. */
  function Finish(b: seq<byte>, cap: nat, c: Config): Option<(seq<byte>, nat)>
    decreases Measure(b, c)
  {
    if c.ip > |b| then None
    else
      match Step(b, cap, c)
      case Fail => None
      case Eof(end) => Some((c.out, end))
      case Next(c') => Finish(b, cap, c')
  }

  const START: Config := Config(Start, 0, [])

  function Decode(b: seq<byte>, cap: nat): Option<(seq<byte>, nat)> {
    Finish(b, cap, START)
  }
}
