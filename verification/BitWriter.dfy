/** The compressor's output side: the byte buffer `outbuf` and the bit accumulator
    `bi_buf`/`bi_valid`.  Everything sent so far is one append-only bit string, and every
    method states what it appends to it. */
module BitWriting {
  import opened Bits

  const OUTBUFSIZ: nat := 8192
  const BUF_SIZE: nat := 32

  /** Zero bits that bring a stream of `n` bits to the next byte boundary. */
  function Padding(n: nat): (r: seq<bool>)
    ensures |r| < 8 && (n + |r|) % 8 == 0
  {
    BitsOf(0, (8 - n % 8) % 8)
  }

  lemma PaddingIs(n: nat, j: nat, m: nat)
    requires j < 8 && n + j == 8 * m
    ensures Padding(n) == BitsOf(0, j)
  {
    hide BitsOf;
    assert (8 - n % 8) % 8 == j;
  }

  /** One's complement of a 32-bit word. */
  function Not32(v: nat): nat {
    TWO32 - 1 - v % TWO32
  }

  lemma {:induction false} BitsOfBelow(v: nat, k: nat, m: nat)
    requires v < Pow2(k)
    ensures BitsOf(v, k + m) == BitsOf(v, k) + BitsOf(0, m)
  {
    BitsOfConcat(v, k, 0, m);
  }

  /** The arithmetic of a full accumulator: the value sent straddles the word boundary. */
  lemma Straddle(buf: nat, valid: nat, value: nat, length: nat)
    requires valid <= BUF_SIZE <= valid + length
    requires 0 < valid < BUF_SIZE
    requires buf < Pow2(valid) && value < Pow2(length)
    ensures Or(buf, Shl32(value, valid)) < TWO32
    ensures Shr(value, BUF_SIZE - valid) < Pow2(valid + length - BUF_SIZE)
    ensures BitsOf(buf, valid) + BitsOf(value, length)
         == BitsOf(Or(buf, Shl32(value, valid)), 32) + BitsOf(Shr(value, BUF_SIZE - valid), valid + length - BUF_SIZE)
  {
    var hi := BUF_SIZE - valid;
    var q, r := Shr(value, hi), Low(value, hi);
    ShlKeepsLow(value, valid);
    OrDisjoint(buf, r, valid);
    assert buf + r * Pow2(valid) < TWO32 by {
      ProductBelow(r, Pow2(hi), Pow2(valid), buf);
      Pow2Add(hi, valid);
      Pow2Values();
    }
    var word := Or(buf, Shl32(value, valid));
    StraddleBits(buf, valid, value, length, word);
    ShrBelow(value, hi, length - hi);
  }

  lemma StraddleBits(buf: nat, valid: nat, value: nat, length: nat, word: nat)
    requires 0 < valid < BUF_SIZE <= valid + length && buf < Pow2(valid)
    requires word == buf + Low(value, BUF_SIZE - valid) * Pow2(valid)
    ensures BitsOf(buf, valid) + BitsOf(value, length)
         == BitsOf(word, 32) + BitsOf(Shr(value, BUF_SIZE - valid), valid + length - BUF_SIZE)
  {
    var hi := BUF_SIZE - valid;
    var a, b, c := BitsOf(buf, valid), BitsOf(value, hi), BitsOf(Shr(value, hi), length - hi);
    assert BitsOf(value, length) == b + c by { BitsOfSplit(value, hi, length - hi); }
    assert BitsOf(word, 32) == a + b by {
      BitsOfLow(value, hi);
      BitsOfConcat(buf, valid, Low(value, hi), hi);
    }
    assert a + (b + c) == (a + b) + c;
  }

  lemma ProductBelow(r: nat, p: nat, d: nat, b: nat)
    requires r < p && b < d
    ensures b + r * d < p * d
  {
    MulGap(p, r, d);
  }

  lemma {:induction false} ShrBelow(v: nat, k: nat, m: nat)
    requires v < Pow2(k + m)
    ensures Shr(v, k) < Pow2(m)
  {
    if k > 0 { ShrBelow(v / 2, k - 1, m); }
  }

  lemma OrFits(buf: nat, valid: nat, value: nat, length: nat)
    requires valid + length < BUF_SIZE
    requires buf < Pow2(valid) && value < Pow2(length)
    ensures Or(buf, Shl32(value, valid)) < Pow2(valid + length)
    ensures BitsOf(buf, valid) + BitsOf(value, length) == BitsOf(Or(buf, Shl32(value, valid)), valid + length)
  {
    ProductBelow(value, Pow2(length), Pow2(valid), buf);
    Pow2Add(length, valid);
    Pow2Mono(valid + length, 32);
    Pow2Values();
    ShlKeepsLow(value, valid);
    Pow2Mono(length, 32 - valid);
    LowShrUnique(value, 32 - valid, 0, value);
    OrDisjoint(buf, value, valid);
    BitsOfConcat(buf, valid, value, length);
  }

  lemma Regroup(a: seq<bool>, b: seq<bool>, c: seq<bool>, b': seq<bool>, c': seq<bool>)
    requires b + c == b' + c'
    ensures (a + b) + c == (a + b') + c'
  {
    assert (a + b) + c == a + (b + c);
    assert (a + b') + c' == a + (b' + c');
  }

  /** One byte of the final drain: either eight accumulator bits, or the last few and zeros. */
  lemma WindupStep(bits: nat, cnt: nat)
    requires 0 < cnt && bits < Pow2(cnt)
    ensures cnt >= 8 ==> Shr(bits, 8) < Pow2(cnt - 8) && BitsOf(bits, cnt) == BitsOf(bits % 256, 8) + BitsOf(Shr(bits, 8), cnt - 8)
    ensures cnt < 8 ==> BitsOf(bits % 256, 8) == BitsOf(bits, cnt) + BitsOf(0, 8 - cnt)
  {
    assert BitsOf(bits % 256, 8) == BitsOf(bits, 8) by {
      Pow2Values();
      LowShrAreModDiv(bits, 8);
      BitsOfLow(bits, 8);
    }
    if cnt >= 8 {
      BitsOfSplit(bits, 8, cnt - 8);
      ShrBelow(bits, 8, cnt - 8);
    } else {
      BitsOfBelow(bits, cnt, 8 - cnt);
    }
  }

  lemma NoBits(v: nat)
    ensures BitsOf(v, 0) == [] && Pow2(0) == 1
  {
  }

  /** One byte more, of the bits left in the accumulator. */
  lemma WindupByte(before: seq<byte>, bits: nat, cnt: nat)
    requires 0 < cnt && bits < Pow2(cnt)
    ensures var after, sent := BytesToBits(before + [bits % 256]), BytesToBits(before) + BitsOf(bits, cnt);
            if cnt < 8 then after == sent + BitsOf(0, 8 - cnt)
            else Shr(bits, 8) < Pow2(cnt - 8) && after + BitsOf(Shr(bits, 8), cnt - 8) == sent
  {
    hide BytesToBits, BitsOf, Shr, Pow2;
    BytesToBitsAppend(before, [bits % 256]);
    BytesToBitsOne(bits % 256);
    WindupStep(bits, cnt);
    var a, b := BytesToBits(before), BitsOf(bits % 256, 8);
    if cnt < 8 {
      assert a + (BitsOf(bits, cnt) + BitsOf(0, 8 - cnt)) == a + BitsOf(bits, cnt) + BitsOf(0, 8 - cnt);
    } else {
      assert a + b + BitsOf(Shr(bits, 8), cnt - 8) == a + (b + BitsOf(Shr(bits, 8), cnt - 8));
    }
  }

  /** Two bytes, least significant first. */
  function Le16(w: nat): (r: seq<byte>)
    requires w < TWO16
    ensures |r| == 2
  {
    [w % 256, w / 256]
  }

  function Le32(n: nat): (r: seq<byte>)
    requires n < TWO32
    ensures |r| == 4
  {
    Le16(n % TWO16) + Le16(n / TWO16)
  }

  lemma Le16Bits(w: nat)
    requires w < TWO16
    ensures BytesToBits(Le16(w)) == BitsOf(w, 16)
  {
    Pow2Values();
    LowShrAreModDiv(w, 8);
    BitsOfSplit(w, 8, 8);
    BitsOfLow(w, 8);
    BytesToBitsAppend([w % 256], [w / 256]);
    assert [w % 256, w / 256] == [w % 256] + [w / 256];
    BytesToBitsOne(w % 256);
    BytesToBitsOne(w / 256);
  }

  lemma Le32Bits(n: nat)
    requires n < TWO32
    ensures BytesToBits(Le32(n)) == BitsOf(n, 32)
  {
    var lo, hi := n % TWO16, n / TWO16;
    Le16Bits(lo);
    Le16Bits(hi);
    BytesToBitsAppend(Le16(lo), Le16(hi));
    Pow2Values();
    DivModUnique(n, TWO16, hi, lo);
    BitsOfConcat(lo, 16, hi, 16);
  }

  class BitWriter {
    const outbuf: array<byte>
    var outcnt: nat
    /** Bytes already handed to `xwrite`. */
    var written: seq<byte>
    var biBuf: nat
    var biValid: nat

    ghost predicate Valid()
      reads this
    {
      outbuf.Length == OUTBUFSIZ && outcnt < OUTBUFSIZ && biValid < BUF_SIZE && biBuf < Pow2(biValid)
    }

    ghost function Bytes(): seq<byte>
      requires Valid()
      reads this, outbuf
    {
      written + outbuf[..outcnt]
    }

    /** All bits sent so far: flushed bytes, buffered bytes, then the accumulator. */
    ghost function Sent(): seq<bool>
      requires Valid()
      reads this, outbuf
    {
      BytesToBits(Bytes()) + BitsOf(biBuf, biValid)
    }

    constructor ()
      ensures Valid() && fresh(outbuf)
      ensures Bytes() == [] && Sent() == [] && biValid == 0
    {
      outbuf := new byte[OUTBUFSIZ](_ => 0);
      outcnt, written, biBuf, biValid := 0, [], 0, 0;
    }

    method FlushOutbuf()
      requires outbuf.Length == OUTBUFSIZ && outcnt <= OUTBUFSIZ
      modifies this`outcnt, this`written
      ensures outcnt == 0 && written == old(written + outbuf[..outcnt])
    {
      if outcnt == 0 {
        return;
      }
      written := written + outbuf[..outcnt];
      outcnt := 0;
    }

    method Put8(c: nat)
      requires Valid()
      modifies this`outcnt, this`written, outbuf
      ensures Valid() && Bytes() == old(Bytes()) + [c % 256]
    {
      outbuf[outcnt] := c % 256;
      outcnt := outcnt + 1;
      assert outbuf[..outcnt] == old(outbuf[..outcnt]) + [c % 256];
      if outcnt == OUTBUFSIZ {
        FlushOutbuf();
      }
    }

    method Put16(w: nat)
      requires Valid() && w < TWO16
      modifies this`outcnt, this`written, outbuf
      ensures Valid() && Bytes() == old(Bytes()) + Le16(w)
    {
      outbuf[outcnt] := w % 256;
      var hi := w / 256;
      if outcnt < OUTBUFSIZ - 2 {
        outbuf[outcnt + 1] := hi;
        outcnt := outcnt + 2;
        assert outbuf[..outcnt] == old(outbuf[..outcnt]) + [w % 256, hi];
        return;
      }
      outcnt := outcnt + 1;
      assert outbuf[..outcnt] == old(outbuf[..outcnt]) + [w % 256];
      if outcnt == OUTBUFSIZ {
        FlushOutbuf();
      }
      Put8(hi);
    }

    method Put32(n: nat)
      requires Valid() && n < TWO32
      modifies this`outcnt, this`written, outbuf
      ensures Valid() && Bytes() == old(Bytes()) + Le32(n)
    {
      Put16(n % TWO16);
      Put16(n / TWO16);
    }

    /** Sends a value on a given number of bits.  The bound on `length` is the IN assertion;
        no shift below reaches the word width. */
    method SendBits(value: nat, length: nat)
      requires Valid() && length <= 16 && value < Pow2(length)
      modifies this, outbuf
      ensures Valid() && Sent() == old(Sent()) + BitsOf(value, length)
    {
      hide Or, BitsOf, Shl32, BytesToBits;
      var newBuf := Or(biBuf, Shl32(value, biValid));
      var newLength := length + biValid;
      ghost var bytes, acc := BytesToBits(Bytes()), BitsOf(biBuf, biValid);
      if newLength >= BUF_SIZE {
        Straddle(biBuf, biValid, value, length);
        var rest := Shr(value, BUF_SIZE - biValid);
        Put32(newBuf);
        ghost var word := BitsOf(newBuf, 32);
        assert BytesToBits(Bytes()) == bytes + word by {
          BytesToBitsAppend(old(Bytes()), Le32(newBuf));
          Le32Bits(newBuf);
        }
        newBuf := rest;
        newLength := newLength - BUF_SIZE;
        Regroup(bytes, word, BitsOf(newBuf, newLength), acc, BitsOf(value, length));
      } else {
        OrFits(biBuf, biValid, value, length);
        assert bytes + BitsOf(newBuf, newLength) == (bytes + acc) + BitsOf(value, length);
      }
      biBuf := newBuf;
      biValid := newLength;
    }

    /** Writes out the bits of an incomplete byte; the stream ends on a byte boundary. */
    method BiWindup()
      requires Valid()
      modifies this, outbuf
      ensures Valid() && biValid == 0
      ensures Sent() == BytesToBits(Bytes()) == old(Sent()) + Padding(|old(Sent())|)
    {
      hide BytesToBits, BitsOf, Shr, Pow2;
      NoBits(0);
      var bits: nat := biBuf;
      var cnt: int := biValid;
      while cnt > 0
        invariant Valid() && -8 < cnt
        invariant cnt >= 0 ==> bits < Pow2(cnt) && BytesToBits(Bytes()) + BitsOf(bits, cnt) == old(Sent())
        invariant cnt < 0 ==> BytesToBits(Bytes()) == old(Sent()) + BitsOf(0, -cnt)
        decreases cnt
      {
        NoBits(Shr(bits, 8));
        WindupByte(Bytes(), bits, cnt);
        Put8(bits);
        bits := Shr(bits, 8);
        cnt := cnt - 8;
      }
      PaddingIs(|old(Sent())|, -cnt, |Bytes()|);
      biBuf := 0;
      biValid := 0;
    }

    /** Copies a stored block: byte alignment, the length and its complement if asked for,
        then the bytes of `buf[start..start + len]`. */
    method CopyBlock(buf: array<byte>, start: nat, len: nat, header: bool)
      requires Valid() && start + len <= buf.Length && len < TWO16 && buf != outbuf
      modifies this, outbuf
      ensures Valid() && biValid == 0
      ensures Sent() == old(Sent()) + Padding(|old(Sent())|)
                        + StoredHeaderBits(len, header)
                        + BytesToBits(buf[start..start + len])
    {
      BiWindup();
      ghost var aligned := BytesToBits(Bytes());
      if header {
        var v := Or(len % TWO16, Shl32(Not32(len), 16));
        StoredHeader(len);
        BytesToBitsAppend(Bytes(), Le32(v));
        Le32Bits(v);
        Put32(v);
      }
      ghost var prefix := Bytes();
      assert BytesToBits(prefix) == aligned + StoredHeaderBits(len, header);
      PutBytes(buf, start, len);
      BytesToBitsAppend(prefix, buf[start..start + len]);
    }

    method PutBytes(buf: array<byte>, start: nat, len: nat)
      requires Valid() && start + len <= buf.Length && buf != outbuf
      modifies this`outcnt, this`written, outbuf
      ensures Valid() && Bytes() == old(Bytes()) + buf[start..start + len]
    {
      var i := 0;
      while i < len
        invariant i <= len && Valid()
        invariant Bytes() == old(Bytes()) + buf[start..start + i]
      {
        Put8(buf[start + i]);
        i := i + 1;
        assert buf[start..start + i] == buf[start..start + i - 1] + [buf[start + i - 1]];
      }
    }
  }

  /** The LEN and NLEN fields of section 3.2.4 of RFC 1951. */
  function StoredHeaderBits(len: nat, header: bool): seq<bool>
    requires len < TWO16
  {
    if header then BitsOf(len, 16) + BitsOf(TWO16 - 1 - len, 16) else []
  }

  lemma StoredHeader(len: nat)
    requires len < TWO16
    ensures Or(len % TWO16, Shl32(Not32(len), 16)) < TWO32
    ensures BitsOf(Or(len % TWO16, Shl32(Not32(len), 16)), 32) == BitsOf(len, 16) + BitsOf(TWO16 - 1 - len, 16)
  {
    hide Or, BitsOf, Shl32, Not32, Pow2;
    ComplementHigh(len);
    assert len % TWO16 == len;
    JoinHalves(len, TWO16 - 1 - len);
  }

  /** The complement, moved to the upper half of a word. */
  lemma ComplementHigh(len: nat)
    requires len < TWO16
    ensures Shl32(Not32(len), 16) == (TWO16 - 1 - len) * Pow2(16)
  {
    hide Shl32;
    Pow2Values();
    LowShrUnique(Not32(len), 16, TWO16 - 1, TWO16 - 1 - len);
    ShlKeepsLow(Not32(len), 16);
  }

  lemma JoinHalves(lo: nat, hi: nat)
    requires lo < TWO16 && hi < TWO16
    ensures Or(lo, hi * Pow2(16)) < TWO32
    ensures BitsOf(Or(lo, hi * Pow2(16)), 32) == BitsOf(lo, 16) + BitsOf(hi, 16)
  {
    Pow2Values();
    OrDisjoint(lo, hi, 16);
    BitsOfConcat(lo, 16, hi, 16);
  }
}
