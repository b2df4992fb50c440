/** What the three kinds of block decode to, and how a sequence of blocks decodes. */
module BlockCoding {
  import opened Bits
  import opened BitWriting
  import opened Rfc1951
  import opened CodeTables
  import opened RunLengths
  import opened TreeHeader
  import opened Tokens

  const STORED_BLOCK: nat := 0
  const STATIC_TREES: nat := 1
  const DYN_TREES: nat := 2

  /** Whatever follows, the reference decoder reads these bits as one block that turns the
      output `out` into `out'`. */
  ghost predicate BlockMeans(bits: seq<bool>, pos: nat, out: seq<byte>, out': seq<byte>, final: bool) {
    forall rest: seq<bool> :: InflateBlock(bits + rest, pos, out) == Some((out', rest, final))
  }

  /** The three bits in front of a block. */
  function BlockHead(kind: nat, final: bool): (r: seq<bool>)
    ensures |r| == 3
  {
    BitsOf(2 * kind + if final then 1 else 0, 3)
  }

  lemma HeadReads(kind: nat, final: bool, rest: seq<bool>)
    requires kind < 4
    ensures var bits := BlockHead(kind, final) + rest;
            bits[0] == final && ValueOf(bits[1..3]) == kind && bits[3..] == rest
  {
    var v, bits := 2 * kind + (if final then 1 else 0), BlockHead(kind, final) + rest;
    assert BitsOf(v, 3) == [final] + BitsOf(kind, 2);
    assert bits[1..3] == BitsOf(kind, 2);
    assert Pow2(2) == 4;
    ValueOfBits(kind, 2);
  }

  // ----- Stored blocks -----

  lemma {:induction false} BytesRead(data: seq<byte>, rest: seq<bool>)
    ensures ReadBytes(BytesToBits(data) + rest, |data|) == Some((data, rest))
  {
    hide BitsOf, ValueOf;
    var bits := BytesToBits(data) + rest;
    if data != [] {
      var tail := BytesToBits(data[1..]) + rest;
      assert bits == BitsOf(data[0], 8) + tail;
      assert bits[..8] == BitsOf(data[0], 8) && bits[8..] == tail;
      BytesRead(data[1..], rest);
      assert [data[0]] + data[1..] == data;
      assert Pow2(8) == 256;
      ValueOfBits(data[0], 8);
    } else {
      assert bits == rest;
    }
  }

  function StoredBits(pos: nat, data: seq<byte>): seq<bool>
    requires |data| < TWO16
  {
    Padding(pos) + (StoredHeaderBits(|data|, true) + BytesToBits(data))
  }

  lemma StoredDecodes(pos: nat, data: seq<byte>, rest: seq<bool>, out: seq<byte>)
    requires |data| < TWO16
    ensures InflateStored(StoredBits(pos, data) + rest, pos, out) == Some((out + data, rest))
  {
    hide BitsOf, ReadBits, BytesToBits, ReadBytes, Pow2;
    var n := |data|;
    var b2 := BytesToBits(data) + rest;
    var b1 := BitsOf(TWO16 - 1 - n, 16) + b2;
    var b0 := BitsOf(n, 16) + b1;
    var bits := StoredBits(pos, data) + rest;
    assert bits == Padding(pos) + b0;
    assert bits[(8 - pos % 8) % 8..] == b0;
    Sixteen(n);
    Sixteen(TWO16 - 1 - n);
    ReadBack(n, 16, b1);
    ReadBack(TWO16 - 1 - n, 16, b2);
    BytesRead(data, rest);
  }

  lemma Sixteen(n: nat)
    requires n < TWO16
    ensures n < Pow2(16)
  {
    Pow2Values();
  }

  lemma StoredMeans(pos: nat, data: seq<byte>, out: seq<byte>, final: bool)
    requires |data| < TWO16
    ensures BlockMeans(BlockHead(STORED_BLOCK, final) + StoredBits(pos + 3, data), pos, out, out + data, final)
  {
    hide StoredBits, InflateStored, InflateCodes, ReadCodes, BlockHead, ValueOf;
    var head, body := BlockHead(STORED_BLOCK, final), StoredBits(pos + 3, data);
    forall rest: seq<bool> ensures InflateBlock(head + body + rest, pos, out) == Some((out + data, rest, final)) {
      assert head + body + rest == head + (body + rest);
      HeadReads(STORED_BLOCK, final, body + rest);
      StoredDecodes(pos + 3, data, rest, out);
    }
  }

  // ----- Compressed blocks -----

  lemma StaticMeans(pos: nat, ts: seq<Token>, out: seq<byte>, final: bool)
    requires AllValid(ts) && Expandable(|out|, ts)
    ensures AllCodable(FIXED_LLENS, FIXED_DLENS, ts) && END_BLOCK < |FIXED_LLENS|
    ensures BlockMeans(BlockHead(STATIC_TREES, final) + BlockData(FIXED_LLENS, FIXED_DLENS, ts), pos, out, Expand(out, ts), final)
  {
    hide InflateStored, InflateCodes, ReadCodes, BlockHead, ValueOf, BlockData, AllCodable, Complete, Expandable;
    FixedComplete();
    StaticCodable(ts);
    var head, body := BlockHead(STATIC_TREES, final), BlockData(FIXED_LLENS, FIXED_DLENS, ts);
    forall rest: seq<bool> ensures InflateBlock(head + body + rest, pos, out) == Some((Expand(out, ts), rest, final)) {
      assert head + body + rest == head + (body + rest);
      HeadReads(STATIC_TREES, final, body + rest);
      BlockDecodes(FIXED_LLENS, FIXED_DLENS, ts, rest, out);
    }
  }

  lemma DynamicMeans(pos: nat, l: seq<nat>, d: seq<nat>, cl: seq<nat>, blcodes: nat, ts: seq<Token>, out: seq<byte>, final: bool)
    requires HeaderOk(l, d, cl, blcodes) && AllCodable(l, d, ts) && Expandable(|out|, ts) && END_BLOCK < |l| && l[END_BLOCK] > 0
    ensures BlockMeans(BlockHead(DYN_TREES, final) + HeaderBits(l, d, cl, blcodes) + BlockData(l, d, ts), pos, out, Expand(out, ts), final)
  {
    hide InflateStored, InflateCodes, ReadCodes, BlockHead, ValueOf, BlockData, AllCodable, HeaderBits, Expandable, Sendable, Complete, RunItems, LensWithin;
    var head, trees, body := BlockHead(DYN_TREES, final), HeaderBits(l, d, cl, blcodes), BlockData(l, d, ts);
    forall rest: seq<bool> ensures InflateBlock(head + trees + body + rest, pos, out) == Some((Expand(out, ts), rest, final)) {
      assert head + trees + body + rest == head + (trees + (body + rest));
      HeadReads(DYN_TREES, final, trees + (body + rest));
      HeaderDecodes(l, d, cl, blcodes, body + rest);
      BlockDecodes(l, d, ts, rest, out);
    }
  }

  // ----- Sequences of blocks -----

  /** From position `start` on, the bits hold complete blocks, none of them final, that produce
      `out`: decoding goes on behind them with that output. */
  ghost predicate Carries(start: nat, bits: seq<bool>, out: seq<byte>) {
    forall rest: seq<bool> :: Inflate(bits + rest, start, []) == Inflate(rest, start + |bits|, out)
  }

  lemma CarriesNone(start: nat)
    ensures Carries(start, [], [])
  {
    hide Inflate;
    forall rest: seq<bool> ensures Inflate([] + rest, start, []) == Inflate(rest, start, []) {
      assert [] + rest == rest;
    }
  }

  lemma CarriesMore(start: nat, bits: seq<bool>, out: seq<byte>, block: seq<bool>, out': seq<byte>)
    requires Carries(start, bits, out) && BlockMeans(block, start + |bits|, out, out', false)
    ensures Carries(start, bits + block, out')
  {
    hide InflateBlock;
    var pos := start + |bits|;
    forall rest: seq<bool> ensures Inflate(bits + block + rest, start, []) == Inflate(rest, start + |bits + block|, out') {
      assert bits + block + rest == bits + (block + rest);
      assert InflateBlock(block + rest, pos, out) == Some((out', rest, false));
      assert Inflate(bits + (block + rest), start, []) == Inflate(block + rest, pos, out);
      assert pos + |block + rest| - |rest| == start + |bits + block|;
    }
  }

  /** After the final block the whole stream decodes. */
  lemma CarriesEnd(start: nat, bits: seq<bool>, out: seq<byte>, block: seq<bool>, out': seq<byte>, rest: seq<bool>)
    requires Carries(start, bits, out) && BlockMeans(block, start + |bits|, out, out', true)
    ensures Inflate(bits + block + rest, start, []) == Some((out', rest))
  {
    hide InflateBlock;
    var pos := start + |bits|;
    assert bits + block + rest == bits + (block + rest);
    assert InflateBlock(block + rest, pos, out) == Some((out', rest, true));
    assert Inflate(bits + (block + rest), start, []) == Inflate(block + rest, pos, out);
  }

  // ----- Only the position within a byte matters -----

  lemma BlockPosition(bits: seq<bool>, pos: nat, pos': nat, out: seq<byte>)
    requires pos % 8 == pos' % 8
    ensures InflateBlock(bits, pos, out) == InflateBlock(bits, pos', out)
  {
    hide InflateCodes, ReadCodes, ReadBits, ReadBytes, ValueOf;
    assert (pos + 3) % 8 == (pos' + 3) % 8;
  }

  lemma {:induction false} PositionInByte(bits: seq<bool>, pos: nat, pos': nat, out: seq<byte>)
    requires pos % 8 == pos' % 8
    ensures Inflate(bits, pos, out) == Inflate(bits, pos', out)
    decreases |bits|
  {
    hide InflateBlock;
    BlockPosition(bits, pos, pos', out);
    match InflateBlock(bits, pos, out)
    case None =>
    case Some((out', rest, final)) =>
      var k := |bits| - |rest|;
      assert (pos + k) % 8 == (pos' + k) % 8;
      PositionInByte(rest, pos + k, pos' + k, out');
  }
}
