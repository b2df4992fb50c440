/** The gzip file format around the compressed data (section 2.3 of RFC 1952), and the program
    that writes it (`zip`). */
module Gzip {
  import opened Bits
  import opened BitWriting
  import opened Rfc1951
  import opened Crc32
  import opened Readers
  import opened Matching
  import opened Tokens
  import opened TokenBuffers
  import opened TreeHeader
  import opened CodeTables
  import opened BlockCoding
  import opened Blocks
  import opened Windows
  import opened Lz77
  import opened Deflating

  // ----- Reading the format -----

  /** The contents of a file with one member and no optional fields.  Any mismatch of the magic
      bytes, the method, the flags, the check value or the size is an error. */
  ghost function Gunzip(file: seq<byte>): Option<seq<byte>> {
    if |file| < 10 || file[0] != 0x1f || file[1] != 0x8b || file[2] != 8 || file[3] != 0 then None
    else
      match Inflate(BytesToBits(file[10..]), 0, [])
      case None => None
      case Some((out, rest)) => if TrailerOk(FromByteBoundary(rest), out) then Some(out) else None
  }

  /** What is left of the last byte begun is skipped. */
  function FromByteBoundary(rest: seq<bool>): seq<bool> {
    rest[|rest| % 8..]
  }

  /** The two words behind the last block. */
  ghost predicate TrailerOk(bits: seq<bool>, out: seq<byte>) {
    match ReadBits(bits, 32)
    case None => false
    case Some((crc, bits1)) =>
      match ReadBits(bits1, 32)
      case None => false
      case Some((size, bits2)) =>
        crc == Not32(CrcOf(BytesToBits(out), CRC_START)) && size == Wrap32(|out|) && bits2 == []
  }

  // ----- Writing it -----

  /** Magic, method, flags, no time stamp, extra flags, operating system Unix. */
  function Header(slow: bool): (r: seq<byte>)
    ensures |r| == 10
  {
    [0x1f, 0x8b, 8, 0, 0, 0, 0, 0, if slow then 2 else 0, 3]
  }

  lemma HeaderWords(slow: bool)
    ensures Le32(0x0008_8b1f) + Le32(0) + Le16(0x300 + if slow then 2 else 0) == Header(slow)
  {
  }

  lemma {:induction false} BytesInjective(a: seq<byte>, b: seq<byte>)
    requires BytesToBits(a) == BytesToBits(b)
    ensures a == b
  {
    hide BitsOf;
    assert |a| == |b|;
    if a != [] {
      var x, y := BytesToBits(a), BytesToBits(b);
      assert x == BitsOf(a[0], 8) + BytesToBits(a[1..]) && y == BitsOf(b[0], 8) + BytesToBits(b[1..]);
      assert x[..8] == BitsOf(a[0], 8) && y[..8] == BitsOf(b[0], 8);
      assert x[8..] == BytesToBits(a[1..]) && y[8..] == BytesToBits(b[1..]);
      BytesInjective(a[1..], b[1..]);
      assert Pow2(8) == 256;
      ValueOfBits(a[0], 8);
      ValueOfBits(b[0], 8);
      assert a == [a[0]] + a[1..] && b == [b[0]] + b[1..];
    }
  }

  /** A file whose bits begin with those of the header begins with the header. */
  lemma SplitFile(file: seq<byte>, head: seq<byte>, rest: seq<bool>)
    requires BytesToBits(file) == BytesToBits(head) + rest
    ensures |head| <= |file| && file[..|head|] == head && BytesToBits(file[|head|..]) == rest
  {
    hide BytesToBits;
    var n := |head|;
    assert 8 * n <= 8 * |file|;
    assert file == file[..n] + file[n..];
    BytesToBitsAppend(file[..n], file[n..]);
    var a, b := BytesToBits(file[..n]), BytesToBits(file[n..]);
    assert a == (a + b)[..8 * n] && b == (a + b)[8 * n..];
    assert BytesToBits(head) == (BytesToBits(head) + rest)[..8 * n] && rest == (BytesToBits(head) + rest)[8 * n..];
    BytesInjective(file[..n], head);
  }

  lemma TrailerReads(crc: nat, size: nat, out: seq<byte>)
    requires crc < TWO32 && size < TWO32 && crc == Not32(CrcOf(BytesToBits(out), CRC_START)) && size == Wrap32(|out|)
    ensures TrailerOk(BitsOf(crc, 32) + BitsOf(size, 32), out)
  {
    hide BitsOf, ReadBits, Pow2, CrcOf, Not32, Wrap32, BytesToBits;
    assert TWO32 == Pow2(32) by { Pow2Values(); }
    ReadBack(crc, 32, BitsOf(size, 32));
    ReadBack(size, 32, []);
    assert BitsOf(size, 32) + [] == BitsOf(size, 32);
  }

  /** A header, blocks that decode to the data, padding and a true trailer make a gzip file. */
  lemma FileReads(body: seq<byte>, slow: bool, bits: seq<bool>, crc: nat, size: nat, out: seq<byte>)
    requires BytesToBits(body) == BytesToBits(Header(slow)) + bits + Padding(80 + |bits|)
    requires forall rest: seq<bool> :: Inflate(bits + rest, 80, []) == Some((out, rest))
    requires crc < TWO32 && size < TWO32 && crc == Not32(CrcOf(BytesToBits(out), CRC_START)) && size == Wrap32(|out|)
    ensures Gunzip(body + Le32(crc) + Le32(size)) == Some(out)
  {
    hide BytesToBits, Inflate, Padding, BitsOf, CrcOf, TrailerOk, Le32, Not32, Wrap32;
    var pad, tail := Padding(80 + |bits|), BitsOf(crc, 32) + BitsOf(size, 32);
    FileParts(body, slow, bits, pad, crc, size);
    var rest := pad + tail;
    PositionInByte(bits + rest, 0, 80, []);
    assert Inflate(bits + rest, 80, []) == Some((out, rest));
    AfterPadding(pad, tail);
    TrailerReads(crc, size, out);
  }

  lemma AfterPadding(pad: seq<bool>, tail: seq<bool>)
    requires |pad| < 8 && |tail| == 64
    ensures (pad + tail)[|pad + tail| % 8..] == tail
  {
    assert |pad + tail| % 8 == |pad|;
  }

  lemma FileParts(body: seq<byte>, slow: bool, bits: seq<bool>, pad: seq<bool>, crc: nat, size: nat)
    requires BytesToBits(body) == BytesToBits(Header(slow)) + bits + pad && crc < TWO32 && size < TWO32
    ensures var file := body + Le32(crc) + Le32(size);
            && |file| >= 10 && file[0] == 0x1f && file[1] == 0x8b && file[2] == 8 && file[3] == 0
            && BytesToBits(file[10..]) == bits + (pad + (BitsOf(crc, 32) + BitsOf(size, 32)))
  {
    hide BytesToBits, BitsOf, Le32, Header;
    var head, tail := Header(slow), Le32(crc) + Le32(size);
    assert BytesToBits(head) + bits + pad == BytesToBits(head) + (bits + pad);
    SplitFile(body, head, bits + pad);
    var file := body + Le32(crc) + Le32(size);
    assert file[10..] == body[10..] + tail;
    FirstFour(body, file, slow);
    BytesToBitsAppend(body[10..], tail);
    BytesToBitsAppend(Le32(crc), Le32(size));
    Le32Bits(crc);
    Le32Bits(size);
  }

  lemma FirstFour(body: seq<byte>, file: seq<byte>, slow: bool)
    requires |body| >= 10 && body[..10] == Header(slow) && body <= file
    ensures file[0] == 0x1f && file[1] == 0x8b && file[2] == 8 && file[3] == 0
  {
    assert body[..10][0] == body[0] && body[..10][1] == body[1] && body[..10][2] == body[2] && body[..10][3] == body[3];
  }

  lemma NotFits(v: nat)
    ensures Not32(v) < TWO32
  {
  }

  lemma BitsAreBytes(w: BitWriter)
    requires w.Valid() && w.biValid == 0
    ensures w.Sent() == BytesToBits(w.Bytes())
  {
  }

  /** Writes the extra flags behind the parts of the header that are already out. */
  method PutFlags(coder: BlockCoder, flags: nat)
    requires coder.Valid() && coder.w.biValid == 0 && flags < TWO16
    modifies coder.w, coder.w.outbuf
    ensures coder.Valid() && coder.w.biValid == 0 && coder.tb.tokens == old(coder.tb.tokens)
    ensures coder.w.Bytes() == old(coder.w.Bytes()) + Le16(flags)
  {
    hide Packed, Tables.Valid, CodesReady, FixedDists, LFreqs, DFreqs, AllValid, Zeros, Le16;
    ghost var st := coder.tb.State();
    coder.w.Put16(flags);
    assert coder.tb.State() == st;
  }

  /** Writes the check value and the size, and flushes. */
  method PutTrailer(w: BitWriter, crc: nat, size: nat)
    requires w.Valid() && w.biValid == 0 && size < TWO32
    modifies w, w.outbuf
    ensures w.written == old(w.Bytes()) + Le32(Not32(crc)) + Le32(size)
  {
    hide Le32;
    w.Put32(Not32(crc));
    w.Put32(size);
    w.FlushOutbuf();
  }

  /** The first eight bytes of the header, and `ct_init`. */
  method StartCoder() returns (coder: BlockCoder)
    ensures coder.Valid() && coder.tb.tokens == [] && fresh(coder.repr) && coder.w.biValid == 0 && Mine(coder)
    ensures coder.w.Bytes() == Le32(0x0008_8b1f) + Le32(0)
  {
    hide BlockCoder.Valid, Le32;
    var w := new BitWriter();
    w.Put32(0x0008_8b1f);
    w.Put32(0);
    assert w.Bytes() == Le32(0x0008_8b1f) + Le32(0);
    coder := new BlockCoder(w);
    CoderOwns(coder);
  }

  ghost predicate Mine(coder: BlockCoder) {
    coder.w in coder.repr && coder.w.outbuf in coder.repr && coder.tb in coder.repr
  }

  lemma CoderOwns(coder: BlockCoder)
    requires coder.Valid()
    ensures Mine(coder)
  {
  }

  /** The input, and `lm_init`. */
  method StartWindow(events: seq<Event>) returns (win: SlidingWindow)
    ensures fresh({win, win.window, win.prev, win.head, win.reader}) && win.Held() && win.Linked() && win.Fed(InputOf(events))
    ensures win.Pos() == 0 && win.blockStart == 0 && (win.eofile || win.lookahead >= MIN_LOOKAHEAD)
    ensures win.lookahead > 0 ==> win.HashReady(win.strstart)
  {
    hide InputOf, SlidingWindow.Held, SlidingWindow.LinkedTo, SlidingWindow.HashReady;
    var reader := new Reader(events);
    win := new SlidingWindow(reader);
    win.LmInit(InputOf(events));
  }

  /** Everything up to the first block. */
  method Begin(events: seq<Event>, cfg: Config, slow: bool) returns (d: Deflater)
    requires cfg.Valid()
    ensures fresh(d) && fresh(d.coder.repr) && fresh(d.WinRepr()) && d.Inv(InputOf(events)) && Mine(d.coder)
    ensures d.prefix == BytesToBits(Header(slow)) && d.bits == []
  {
    hide InputOf, Le32, Le16, BytesToBits, BlockCoder.Valid, SlidingWindow.Held, SlidingWindow.LinkedTo, SlidingWindow.HashReady,
         Coded, Header, Back, Pow2, BitWriter.Sent, BitWriter.Bytes, SlidingWindow.Fed;
    var coder := StartCoder();
    var win := StartWindow(events);
    WindowShape(win);
    PutFlags(coder, 0x300 + if slow then 2 else 0);
    HeaderWords(slow);
    CoderParts(coder);
    BitsAreBytes(coder.w);
    d := new Deflater(coder, win, cfg);
  }

  lemma WindowShape(win: SlidingWindow)
    requires win.Held()
    ensures win.Shape()
  {
  }

  /** Main result: for every input, in whatever pieces it is read, the file written decompresses
      to exactly that input. */
  method Zip(events: seq<Event>, cfg: Config, slow: bool) returns (file: seq<byte>)
    requires cfg.Valid()
    ensures Gunzip(file) == Some(InputOf(events))
  {
    hide Inflate, InputOf, Le32, BytesToBits, Gunzip, CrcOf, Padding, Header, BitsOf, Deflater.Inv, Not32;
    ghost var input := InputOf(events);
    var d := Begin(events, cfg, slow);
    d.Deflate(input);
    var w, reader := d.coder.w, d.win.reader;
    BitsAreBytes(w);
    ghost var body, bits := w.Bytes(), d.bits;
    assert |d.prefix + bits| == 80 + |bits|;
    NotFits(reader.crc);
    FileReads(body, slow, bits, Not32(reader.crc), reader.isize, input);
    PutTrailer(w, reader.crc, reader.isize);
    file := w.written;
  }
}
