/** The input of the compressor: a file that delivers its bytes in pieces of any size. */
module Readers {
  import opened Bits
  import opened Crc32

  /** The outcomes of successive reads.  A read may take only part of a chunk; an empty chunk or
      the end of the list is the end of the file. */
  datatype Event = Chunk(data: seq<byte>) | Error

  /** The bytes that reads deliver before one of them reports the end of the file or an error. */
  function InputOf(events: seq<Event>): seq<byte> {
    if events == [] || events[0].Error? || events[0].data == [] then []
    else events[0].data + InputOf(events[1..])
  }

  class Reader {
    var events: seq<Event>
    var isize: nat
    var crc: nat
    const crcTable: seq<nat>
    /** All bytes read so far. */
    ghost var delivered: seq<byte>

    ghost predicate Valid()
      reads this
    {
      CrcTableOk(crcTable) && isize == Wrap32(|delivered|) && crc == CrcOf(BytesToBits(delivered), CRC_START)
    }

    constructor (events: seq<Event>)
      ensures Valid() && this.events == events && delivered == []
    {
      var table := Crc32FillTable();
      crcTable := table;
      this.events := events;
      isize, crc, delivered := 0, CRC_START, [];
    }

    /** `file_read`: -1 is an error, 0 the end of the file. */
    method FileRead(buf: array<byte>, at: nat, size: nat) returns (n: int)
      requires Valid() && at + size <= buf.Length && size >= 1
      modifies this, buf
      ensures Valid() && -1 <= n <= size
      ensures n > 0 ==> delivered == old(delivered) + buf[at..at + n]
      ensures n <= 0 ==> delivered == old(delivered) && InputOf(old(events)) == []
      ensures delivered + InputOf(events) == old(delivered + InputOf(events))
      ensures forall i :: 0 <= i < at || at + size <= i < buf.Length ==> buf[i] == old(buf[i])
    {
      hide CrcOf, BytesToBits, CrcTableOk, Wrap32, InputOf, Remaining;
      NothingLeft(events);
      if events == [] {
        return 0;
      }
      if events[0].Error? {
        return -1;
      }
      var data := events[0].data;
      if data == [] {
        return 0;
      }
      n := if |data| <= size then |data| else size;
      CopyIn(buf, at, data[..n]);
      var piece := buf[at..at + n];
      SplitInput(delivered, events, n);
      events := Remaining(events, n);
      CrcAppend(delivered, piece);
      WrapAdd(|delivered|, n);
      crc := Crc32Block(crc, piece, crcTable);
      isize := Wrap32(isize + n);
      delivered := delivered + piece;
    }
  }

  method CopyIn(buf: array<byte>, at: nat, data: seq<byte>)
    requires at + |data| <= buf.Length
    modifies buf
    ensures buf[at..at + |data|] == data
    ensures forall i :: 0 <= i < at || at + |data| <= i < buf.Length ==> buf[i] == old(buf[i])
  {
    forall i | 0 <= i < |data| {
      buf[at + i] := data[i];
    }
  }

  lemma NothingLeft(events: seq<Event>)
    ensures events == [] || events[0].Error? || events[0].data == [] ==> InputOf(events) == []
  {
  }

  /** Taking n bytes of the first chunk leaves the rest of the input. */
  lemma SplitInput(before: seq<byte>, events: seq<Event>, n: nat)
    requires events != [] && events[0].Chunk? && 0 < n <= |events[0].data|
    ensures InputOf(events) == events[0].data[..n] + InputOf(Remaining(events, n))
    ensures before + InputOf(events) == before + events[0].data[..n] + InputOf(Remaining(events, n))
  {
    var data, rest := events[0].data, Remaining(events, n);
    if n == |data| {
      assert data[..n] == data;
    } else {
      assert rest[1..] == events[1..];
      assert data == data[..n] + data[n..];
      assert InputOf(rest) == data[n..] + InputOf(events[1..]);
    }
    assert before + (data[..n] + InputOf(rest)) == before + data[..n] + InputOf(rest);
  }

  function Remaining(events: seq<Event>, n: nat): seq<Event>
    requires events != [] && events[0].Chunk? && n <= |events[0].data|
  {
    if n == |events[0].data| then events[1..] else [Chunk(events[0].data[n..])] + events[1..]
  }
}
