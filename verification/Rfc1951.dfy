/** A reference decoder for the DEFLATE format, written from section 3.2 of RFC 1951.

    It knows nothing of the compressor.  It is stricter than the format demands: it rejects
    every code set of a dynamic block that is not complete, and every symbol count the
    format does not define. */
module Rfc1951 {
  import opened Bits
  import opened Copying

  const END_OF_BLOCK: nat := 256

  /** Section 3.2.7: no code is longer. */
  const LONGEST_CODE: nat := 15

  /** Section 3.2.5: base values and extra bits of length codes 257..285. */
  const LENGTH_BASE: seq<nat> :=
    [3, 4, 5, 6, 7, 8, 9, 10, 11, 13, 15, 17, 19, 23, 27, 31, 35, 43, 51, 59, 67, 83, 99, 115, 131, 163, 195, 227, 258]
  const LENGTH_EXTRA: seq<nat> :=
    [0, 0, 0, 0, 0, 0, 0, 0, 1, 1, 1, 1, 2, 2, 2, 2, 3, 3, 3, 3, 4, 4, 4, 4, 5, 5, 5, 5, 0]

  /** Section 3.2.5: base values and extra bits of distance codes 0..29. */
  const DIST_BASE: seq<nat> :=
    [1, 2, 3, 4, 5, 7, 9, 13, 17, 25, 33, 49, 65, 97, 129, 193, 257, 385, 513, 769,
     1025, 1537, 2049, 3073, 4097, 6145, 8193, 12289, 16385, 24577]
  const DIST_EXTRA: seq<nat> :=
    [0, 0, 0, 0, 1, 1, 2, 2, 3, 3, 4, 4, 5, 5, 6, 6, 7, 7, 8, 8, 9, 9, 10, 10, 11, 11, 12, 12, 13, 13]

  /** Section 3.2.7: the order in which the lengths of the code length codes are sent. */
  const CL_ORDER: seq<nat> :=
    [16, 17, 18, 0, 8, 7, 9, 6, 10, 5, 11, 4, 12, 3, 13, 2, 14, 1, 15]

  // ----- Section 3.2.2: canonical codes from code lengths -----

  /** Number of symbols with code length `l`: the bl_count of step 1. */
  function CountLen(lens: seq<nat>, l: nat): (c: nat)
    ensures c <= |lens|
  {
    if lens == [] then 0
    else CountLen(lens[..|lens| - 1], l) + (if lens[|lens| - 1] == l then 1 else 0)
  }

  /** Smallest code of length `bits`: step 2.  Length 0 means that a symbol is not used. */
  function NextCode(lens: seq<nat>, bits: nat): (c: nat) {
    if bits == 0 then 0
    else 2 * (NextCode(lens, bits - 1) + if bits == 1 then 0 else CountLen(lens, bits - 1))
  }

  /** The code of symbol `n`: step 3 hands out consecutive values in symbol order. */
  function Code(lens: seq<nat>, n: nat): (c: nat)
    requires n < |lens|
  {
    NextCode(lens, lens[n]) + CountLen(lens[..n], lens[n])
  }

  /** A Huffman code enters the stream starting with its most significant bit (section 3.1.1). */
  function MsbBits(v: nat, len: nat): (r: seq<bool>)
    ensures |r| == len
  {
    if len == 0 then [] else MsbBits(v / 2, len - 1) + [v % 2 == 1]
  }

  function Codeword(lens: seq<nat>, n: nat): (r: seq<bool>)
    requires n < |lens|
    ensures |r| == lens[n]
  {
    MsbBits(Code(lens, n), lens[n])
  }

  predicate LensWithin(lens: seq<nat>, max: nat) {
    forall i :: 0 <= i < |lens| ==> lens[i] <= max
  }

  /** Share of the code space taken by a code of length `l`, in units of 2^-max. */
  function Share(l: nat, max: nat): nat
    requires l <= max
  {
    if l == 0 then 0 else Pow2(max - l)
  }

  /** The Kraft sum in units of 2^-max. */
  function Kraft(lens: seq<nat>, max: nat): (k: nat)
    requires LensWithin(lens, max)
  {
    if lens == [] then 0 else Kraft(lens[..|lens| - 1], max) + Share(lens[|lens| - 1], max)
  }

  /** The code is complete: it uses up the code space exactly. */
  predicate Complete(lens: seq<nat>) {
    LensWithin(lens, MAX_BITS) && Kraft(lens, MAX_BITS) == Pow2(MAX_BITS)
  }

  // ----- Reading -----

  function ReadBits(bits: seq<bool>, n: nat): (r: Option<(nat, seq<bool>)>)
    ensures r.Some? ==> |r.value.1| + n == |bits| && r.value.0 < Pow2(n)
  {
    if |bits| < n then None else Some((ValueOf(bits[..n]), bits[n..]))
  }

  /** The first symbol at or after `n` whose code has this length and value. */
  function FindCode(lens: seq<nat>, len: nat, code: nat, n: nat): (r: Option<nat>)
    requires n <= |lens|
    ensures r.Some? ==> n <= r.value < |lens| && lens[r.value] == len && Code(lens, r.value) == code
    decreases |lens| - n
  {
    if n == |lens| then None
    else if lens[n] == len && Code(lens, n) == code then Some(n)
    else FindCode(lens, len, code, n + 1)
  }

  /** Reads a symbol bit by bit: `code` holds the `len` bits read so far. */
  function DecodeFrom(lens: seq<nat>, bits: seq<bool>, len: nat, code: nat): (r: Option<(nat, seq<bool>)>)
    ensures r.Some? ==> r.value.0 < |lens| && |r.value.1| <= |bits|
    ensures r.Some? && len == 0 ==> |r.value.1| < |bits|
    decreases |bits|
  {
    var found := if len == 0 then None else FindCode(lens, len, code, 0);
    if found.Some? then Some((found.value, bits))
    else if bits == [] || len >= LONGEST_CODE then None
    else DecodeFrom(lens, bits[1..], len + 1, 2 * code + if bits[0] then 1 else 0)
  }

  function DecodeSymbol(lens: seq<nat>, bits: seq<bool>): (r: Option<(nat, seq<bool>)>)
    ensures r.Some? ==> r.value.0 < |lens| && |r.value.1| < |bits|
  {
    DecodeFrom(lens, bits, 0, 0)
  }

  // ----- Section 3.2.3: compressed data -----

  /** Reads the rest of a match whose length symbol is `sym`, and copies it. */
  function InflateMatch(sym: nat, dlens: seq<nat>, bits: seq<bool>, out: seq<byte>): (r: Option<(seq<byte>, seq<bool>)>)
    requires 257 <= sym
    ensures r.Some? ==> |r.value.1| <= |bits|
  {
    if sym > 285 then None
    else
      var lc := sym - 257;
      match ReadBits(bits, LENGTH_EXTRA[lc])
      case None => None
      case Some((lx, bits1)) =>
        match DecodeSymbol(dlens, bits1)
        case None => None
        case Some((dc, bits2)) =>
          if dc > 29 then None
          else
            match ReadBits(bits2, DIST_EXTRA[dc])
            case None => None
            case Some((dx, bits3)) =>
              var dist := DIST_BASE[dc] + dx;
              if 1 <= dist <= |out| then Some((CopyMatch(out, dist, LENGTH_BASE[lc] + lx), bits3)) else None
  }

  /** Decodes literals and matches up to and including the end-of-block symbol. */
  function InflateCodes(llens: seq<nat>, dlens: seq<nat>, bits: seq<bool>, out: seq<byte>): (r: Option<(seq<byte>, seq<bool>)>)
    ensures r.Some? ==> |r.value.1| < |bits|
    decreases |bits|
  {
    match DecodeSymbol(llens, bits)
    case None => None
    case Some((sym, rest)) =>
      if sym < 256 then InflateCodes(llens, dlens, rest, out + [sym])
      else if sym == END_OF_BLOCK then Some((out, rest))
      else
        match InflateMatch(sym, dlens, rest, out)
        case None => None
        case Some((out', rest')) => InflateCodes(llens, dlens, rest', out')
  }

  // ----- Section 3.2.4: stored blocks -----

  function ReadBytes(bits: seq<bool>, n: nat): (r: Option<(seq<byte>, seq<bool>)>)
    ensures r.Some? ==> |r.value.1| <= |bits|
    decreases n
  {
    if n == 0 then Some(([], bits))
    else if |bits| < 8 then None
    else
      Pow2Values();
      match ReadBytes(bits[8..], n - 1)
      case None => None
      case Some((bs, rest)) => Some(([ValueOf(bits[..8])] + bs, rest))
  }

  /** `pos` is the offset of `bits` in the whole stream; bits up to a byte boundary are ignored. */
  function InflateStored(bits: seq<bool>, pos: nat, out: seq<byte>): (r: Option<(seq<byte>, seq<bool>)>)
    ensures r.Some? ==> |r.value.1| <= |bits|
  {
    var skip := (8 - pos % 8) % 8;
    if |bits| < skip then None
    else
      match ReadBits(bits[skip..], 16)
      case None => None
      case Some((len, bits1)) =>
        match ReadBits(bits1, 16)
        case None => None
        case Some((nlen, bits2)) =>
          if len + nlen != TWO16 - 1 then None
          else
            match ReadBytes(bits2, len)
            case None => None
            case Some((bs, rest)) => Some((out + bs, rest))
  }

  // ----- Section 3.2.6: fixed codes -----

  function Repeat(v: nat, n: nat): (r: seq<nat>)
    ensures |r| == n && forall i :: 0 <= i < n ==> r[i] == v
  {
    seq(n, _ => v)
  }

  const FIXED_LLENS: seq<nat> := Repeat(8, 144) + Repeat(9, 112) + Repeat(7, 24) + Repeat(8, 8)
  const FIXED_DLENS: seq<nat> := Repeat(5, 32)

  // ----- Section 3.2.7: dynamic codes -----

  /** Reads the `count` three-bit lengths of the code length codes, from index `i` of the order. */
  function ReadClLens(bits: seq<bool>, count: nat, i: nat, cl: seq<nat>): (r: Option<(seq<nat>, seq<bool>)>)
    requires i <= count <= 19 && |cl| == 19
    ensures r.Some? ==> |r.value.0| == 19 && |r.value.1| <= |bits|
    decreases count - i
  {
    if i == count then Some((cl, bits))
    else
      match ReadBits(bits, 3)
      case None => None
      case Some((l, rest)) => ReadClLens(rest, count, i + 1, cl[CL_ORDER[i] := l])
  }

  /** What code length symbol `sym` with its repeat bits appends to the lengths read so far. */
  function RunOf(sym: nat, x: nat, acc: seq<nat>): (r: Option<seq<nat>>)
    ensures r.Some? ==> |r.value| > 0
  {
    if sym < 16 then Some([sym])
    else if sym == 16 then
      if acc == [] then None else Some(Repeat(acc[|acc| - 1], 3 + x))
    else if sym == 17 then Some(Repeat(0, 3 + x))
    else Some(Repeat(0, 11 + x))
  }

  /** How many repeat bits follow a code length symbol. */
  function RepeatBits(sym: nat): nat {
    if sym < 16 then 0 else if sym == 16 then 2 else if sym == 17 then 3 else 7
  }

  /** Reads code lengths until there are exactly `total` of them. */
  function ReadLens(cl: seq<nat>, bits: seq<bool>, total: nat, acc: seq<nat>): (r: Option<(seq<nat>, seq<bool>)>)
    requires |cl| == 19
    ensures r.Some? ==> |r.value.0| == total && |r.value.1| <= |bits|
    decreases |bits|
  {
    if |acc| == total then Some((acc, bits))
    else if |acc| > total then None
    else
      match DecodeSymbol(cl, bits)
      case None => None
      case Some((sym, bits1)) =>
        match ReadBits(bits1, RepeatBits(sym))
        case None => None
        case Some((x, bits2)) =>
          match RunOf(sym, x, acc)
          case None => None
          case Some(run) => ReadLens(cl, bits2, total, acc + run)
  }

  datatype Codes = Codes(llens: seq<nat>, dlens: seq<nat>)

  function ReadCodes(bits: seq<bool>): (r: Option<(Codes, seq<bool>)>)
    ensures r.Some? ==> |r.value.1| <= |bits|
  {
    match ReadBits(bits, 5)
    case None => None
    case Some((hlit, bits1)) =>
      match ReadBits(bits1, 5)
      case None => None
      case Some((hdist, bits2)) =>
        match ReadBits(bits2, 4)
        case None => None
        case Some((hclen, bits3)) =>
          Pow2Values();
          var nl, nd := hlit + 257, hdist + 1;
          if nl > 286 || nd > 30 || hclen + 4 > 19 then None
          else
            match ReadClLens(bits3, hclen + 4, 0, Repeat(0, 19))
            case None => None
            case Some((cl, bits4)) =>
              if !Complete(cl) then None
              else
                match ReadLens(cl, bits4, nl + nd, [])
                case None => None
                case Some((lens, bits5)) =>
                  if !Complete(lens[..nl]) || !Complete(lens[nl..]) then None
                  else Some((Codes(lens[..nl], lens[nl..]), bits5))
  }

  // ----- Section 3.2.3: blocks -----

  /** One block: the decoded output, the remaining bits, and whether it was the last block. */
  function InflateBlock(bits: seq<bool>, pos: nat, out: seq<byte>): (r: Option<(seq<byte>, seq<bool>, bool)>)
    ensures r.Some? ==> |r.value.1| < |bits|
  {
    if |bits| < 3 then None
    else
      var final, kind, rest := bits[0], ValueOf(bits[1..3]), bits[3..];
      var body :=
        if kind == 0 then InflateStored(rest, pos + 3, out)
        else if kind == 1 then InflateCodes(FIXED_LLENS, FIXED_DLENS, rest, out)
        else if kind == 2 then
          match ReadCodes(rest)
          case None => None
          case Some((codes, rest')) => InflateCodes(codes.llens, codes.dlens, rest', out)
        else None;
      match body
      case None => None
      case Some((out', rest')) => Some((out', rest', final))
  }

  /** All blocks up to and including the last one. */
  function Inflate(bits: seq<bool>, pos: nat, out: seq<byte>): (r: Option<(seq<byte>, seq<bool>)>)
    decreases |bits|
  {
    match InflateBlock(bits, pos, out)
    case None => None
    case Some((out', rest, final)) =>
      if final then Some((out', rest)) else Inflate(rest, pos + |bits| - |rest|, out')
  }
}
