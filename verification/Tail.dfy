/** `tail`: the last lines or bytes of a stream, kept in a buffer while the stream is read, and the
    +N mode.  A count is an unsigned 32-bit value; where the program casts it to an int, or an
    unsigned difference, so does the model.  `ok` is false where the program would leave its buffer
    or overflow an int. */
module Tail {
  import opened Bits
  import opened Readers

  const NEWLINE: byte := 10
  const BUFSIZ: nat := 8192
  const INT_MAX: nat := 0x7fff_ffff

  /** C's conversion of an unsigned 32-bit value to int. */
  function AsInt(v: nat): int {
    if v > INT_MAX then v - TWO32 else v
  }

  // ----- Lines -----

  function Newlines(s: seq<byte>): (n: nat)
    ensures n <= |s|
  {
    if s == [] then 0 else Newlines(s[..|s| - 1]) + if s[|s| - 1] == NEWLINE then 1 else 0
  }

  /** An unterminated last line. */
  function Extra(s: seq<byte>): nat {
    if s != [] && s[|s| - 1] != NEWLINE then 1 else 0
  }

  function Lines(s: seq<byte>): nat {
    Newlines(s) + Extra(s)
  }

  /** What follows the first k newlines; nothing if there are fewer. */
  function AfterNewlines(s: seq<byte>, k: nat): (r: seq<byte>)
    ensures |r| <= |s|
  {
    if k == 0 then s
    else if s == [] then []
    else AfterNewlines(s[1..], if s[0] == NEWLINE then k - 1 else k)
  }

  /** The last n lines of a text: all of it, or what follows the lines too many. */
  function LastLines(s: seq<byte>, n: nat): seq<byte> {
    if Lines(s) <= n then s else AfterNewlines(s, Lines(s) - n)
  }

  function LastBytes(s: seq<byte>, n: nat): seq<byte> {
    if |s| <= n then s else s[|s| - n..]
  }

  lemma {:induction false} NewlinesAppend(a: seq<byte>, b: seq<byte>)
    ensures Newlines(a + b) == Newlines(a) + Newlines(b)
  {
    if b == [] {
      assert a + b == a;
    } else {
      assert (a + b)[..|a + b| - 1] == a + b[..|b| - 1];
      NewlinesAppend(a, b[..|b| - 1]);
    }
  }

  lemma NewlinesHead(s: seq<byte>)
    requires s != []
    ensures Newlines(s) == Newlines(s[1..]) + if s[0] == NEWLINE then 1 else 0
  {
    var one := [s[0]];
    assert s == one + s[1..];
    NewlinesAppend(one, s[1..]);
    assert one[..0] == [];
    assert Newlines(one) == Newlines(one[..0]) + if s[0] == NEWLINE then 1 else 0;
  }

  lemma {:induction false} AfterAppend(a: seq<byte>, b: seq<byte>, k: nat)
    requires k <= Newlines(a)
    ensures AfterNewlines(a + b, k) == AfterNewlines(a, k) + b
  {
    if k > 0 && a != [] {
      NewlinesHead(a);
      assert (a + b)[1..] == a[1..] + b;
      AfterAppend(a[1..], b, if a[0] == NEWLINE then k - 1 else k);
    }
  }

  lemma {:induction false} AfterAfter(s: seq<byte>, j: nat, k: nat)
    ensures AfterNewlines(AfterNewlines(s, j), k) == AfterNewlines(s, j + k)
  {
    if j > 0 && s != [] { AfterAfter(s[1..], if s[0] == NEWLINE then j - 1 else j, k); }
    if s == [] { AfterNothing(k); }
  }

  lemma AfterNothing(k: nat)
    ensures AfterNewlines([], k) == []
  {
  }

  lemma {:induction false} AfterCount(s: seq<byte>, k: nat)
    requires k <= Newlines(s)
    ensures Newlines(AfterNewlines(s, k)) == Newlines(s) - k
  {
    if k > 0 && s != [] {
      NewlinesHead(s);
      AfterCount(s[1..], if s[0] == NEWLINE then k - 1 else k);
    }
  }

  /** What the last bytes are: the end of the text, with n bytes or all there are. */
  lemma LastBytesAre(s: seq<byte>, n: nat)
    ensures |LastBytes(s, n)| == (if n < |s| then n else |s|) && LastBytes(s, n) == s[|s| - |LastBytes(s, n)|..]
  {
  }

  /** A cut at the beginning of the text or behind a newline. */
  ghost predicate AtLineStart(s: seq<byte>, i: nat) {
    i == 0 || (i <= |s| && s[i - 1] == NEWLINE)
  }

  /** What the last lines are: the end of the text from the beginning of a line on, with n lines or all
      there are; an unterminated last line counts. */
  lemma LastLinesAre(s: seq<byte>, n: nat)
    requires n >= 1
    ensures var r := LastLines(s, n);
            |r| <= |s| && r == s[|s| - |r|..] && AtLineStart(s, |s| - |r|) && Lines(r) == if n < Lines(s) then n else Lines(s)
  {
    hide Newlines;
    if n < Lines(s) {
      var k := Lines(s) - n;
      AfterIsLineStart(s, k);
      AfterCount(s, k);
      AfterExtra(s, k);
    }
  }

  /** Line N begins behind the newline that ends N less one lines. */
  lemma LineStarts(a: seq<byte>, b: seq<byte>)
    requires a != [] && a[|a| - 1] == NEWLINE
    ensures AfterNewlines(a + b, Newlines(a)) == b
  {
    AfterAppend(a, b, Newlines(a));
    NothingBehindNewline(a);
    assert [] + b == b;
  }

  /** What follows k newlines begins behind the last of them. */
  lemma {:induction false} AfterIsLineStart(s: seq<byte>, k: nat)
    requires k <= Newlines(s)
    ensures var r := AfterNewlines(s, k); r == s[|s| - |r|..] && AtLineStart(s, |s| - |r|)
  {
    if k > 0 {
      NoNewlines();
      NewlinesHead(s);
      var j := if s[0] == NEWLINE then k - 1 else k;
      AfterIsLineStart(s[1..], j);
      var r := AfterNewlines(s[1..], j);
      assert s[1..][|s| - 1 - |r|..] == s[|s| - |r|..];
      if j > 0 { AfterShorter(s[1..], j); }
    }
  }

  lemma {:induction false} AfterShorter(s: seq<byte>, k: nat)
    requires 1 <= k <= Newlines(s)
    ensures |AfterNewlines(s, k)| < |s|
  {
    NoNewlines();
  }

  /** Lines are counted by their newlines. */
  lemma {:induction false} OneLine(s: seq<byte>)
    requires forall i :: 0 <= i < |s| ==> s[i] != NEWLINE
    ensures Newlines(s) == 0 && Newlines(s + [NEWLINE]) == 1 && Lines(s + [NEWLINE]) == 1 && Lines(s) == if s == [] then 0 else 1
  {
    NoNewlineIn(s);
    var t := s + [NEWLINE];
    assert t[..|t| - 1] == s;
  }

  /** Main lemma: the last lines of a longer text need only the last lines of the part before. */
  lemma LastLinesStream(a: seq<byte>, b: seq<byte>, n: nat)
    requires n >= 1 && b != []
    ensures LastLines(a + b, n) == LastLines(LastLines(a, n) + b, n)
  {
    hide Newlines, AfterNewlines;
    NewlinesAppend(a, b);
    SomeLine(b);
    if Lines(a) > n {
      var k, more := Lines(a) - n, Lines(a + b) - Lines(a);
      var held := AfterNewlines(a, k);
      AfterAppend(a, b, k);
      AfterCount(a, k);
      NewlinesAppend(held, b);
      assert Lines(held + b) == n + more;
      AfterAfter(a + b, k, more);
      NothingAfter(held + b);
    }
  }

  lemma SomeLine(b: seq<byte>)
    requires b != []
    ensures Newlines(b) + Extra(b) >= 1
  {
  }

  lemma NothingAfter(s: seq<byte>)
    ensures AfterNewlines(s, 0) == s
  {
  }

  // ----- Starting from a seek point -----

  /** Every line, its newline included, is shorter than 64K: there is a newline in any stretch of
      that length less one. */
  ghost predicate ShortLines(s: seq<byte>) {
    forall i: nat :: NewlineSoon(s, i)
  }

  ghost predicate NewlineSoon(s: seq<byte>, i: nat) {
    i + 0xffff <= |s| ==> Newlines(s[i..i + 0xffff]) >= 1
  }

  /** With short lines, n times 64K bytes hold more than n lines. */
  lemma {:induction false} EnoughLines(s: seq<byte>, n: nat, from: nat, spare: nat)
    requires ShortLines(s) && from + n * 0xffff + spare == |s| && spare >= 1
    ensures Lines(s[from..]) >= n + 1
    decreases n
  {
    if n == 0 {
      SomeLine(s[from..]);
    } else {
      var mid := from + 0xffff;
      EnoughLines(s, n - 1, mid, spare);
      SameExtra(s, from, mid);
      assert NewlineSoon(s, from);
      assert s[from..] == s[from..mid] + s[mid..];
      NewlinesAppend(s[from..mid], s[mid..]);
    }
  }

  lemma SameExtra(s: seq<byte>, from: nat, mid: nat)
    requires from <= mid < |s|
    ensures Extra(s[from..]) == Extra(s[mid..])
  {
  }

  lemma {:induction false} NoNewlineInFront(t: seq<byte>, b: seq<byte>, k: nat)
    requires Newlines(t) == 0 && k >= 1
    ensures AfterNewlines(t + b, k) == AfterNewlines(b, k)
  {
    if t == [] {
      assert t + b == b;
    } else {
      NewlinesHead(t);
      assert (t + b)[1..] == t[1..] + b;
      NoNewlineInFront(t[1..], b, k);
    }
  }

  /** Main lemma: what lies before a seek point does not matter if more than n lines follow. */
  lemma BehindSeek(a: seq<byte>, b: seq<byte>, n: nat)
    requires Lines(b) >= n + 1
    ensures LastLines(a + b, n) == LastLines(b, n)
  {
    hide AfterNewlines, Newlines;
    NewlinesAppend(a, b);
    NoNewlines();
    var k, m := Lines(b) - n, Newlines(a);
    var t := AfterNewlines(a, m);
    AfterAppend(a, b, m);
    AfterCount(a, m);
    AfterAfter(a + b, m, k);
    NoNewlineInFront(t, b, k);
  }

  lemma NoNewlines()
    ensures Newlines([]) == 0
  {
  }

  lemma NothingBehindNewline(a: seq<byte>)
    requires a != []
    ensures AfterNewlines(a, Newlines(a)) == [] <==> a[|a| - 1] == NEWLINE
  {
    if a[|a| - 1] == NEWLINE {
      AllGone(a, Newlines(a));
    } else {
      AfterExtra(a, Newlines(a));
    }
  }

  /** Exactly when a seek does no harm: more lines follow than are wanted, or just as many and the
      seek point is at the start of one. */
  lemma SeekExact(s: seq<byte>, n: nat, from: nat)
    requires n >= 1 && 0 < from <= |s|
    ensures LastLines(s[from..], n) == LastLines(s, n) <==>
            Lines(s[from..]) > n || (Lines(s[from..]) == n && s[from - 1] == NEWLINE)
  {
    var a, b := s[..from], s[from..];
    assert s == a + b;
    if Lines(b) > n {
      BehindSeek(a, b, n);
    } else if Lines(b) == n {
      JustEnough(a, b, n);
    } else {
      TooFew(s, b, n);
    }
  }

  lemma JustEnough(a: seq<byte>, b: seq<byte>, n: nat)
    requires a != [] && Lines(b) == n >= 1
    ensures LastLines(b, n) == LastLines(a + b, n) <==> a[|a| - 1] == NEWLINE
  {
    hide AfterNewlines, Newlines;
    NewlinesAppend(a, b);
    if b == [] { NoNewlines(); }
    var m := Newlines(a);
    AfterAppend(a, b, m);
    NothingBehindNewline(a);
    NothingAfter(a + b);
    var t := AfterNewlines(a, m);
    if m == 0 { NothingAfter(a); }
    assert LastLines(a + b, n) == t + b;
    assert |t + b| == |b| <==> t == [];
  }

  lemma TooFew(s: seq<byte>, b: seq<byte>, n: nat)
    requires Lines(b) < n && |b| < |s|
    ensures LastLines(b, n) != LastLines(s, n)
  {
    hide AfterNewlines, Newlines;
    if Lines(s) > n {
      AfterCount(s, Lines(s) - n);
      AfterExtra(s, Lines(s) - n);
    }
  }

  /** How far before the end reading starts: as many stretches of 64K as lines are wanted, for small
      counts rounded up to sixteen less one, and at most INT_MAX bytes. */
  function SeekDistance(count: nat): (d: nat)
    ensures count <= INT_MAX / 0x1_0000 ==> d >= count * 0x1_0000
  {
    OrAtLeast(count, 0xf);
    var off := Or(count, 0xf);
    (if off > INT_MAX / (64 * 1024) then INT_MAX / (64 * 1024) else off) * (64 * 1024)
  }

  function SeekStart(size: nat, count: nat): (from: nat)
    ensures from <= size
  {
    if size <= SeekDistance(count) then 0 else size - SeekDistance(count)
  }

  /** The seek before counting lines. */
  method SeekPoint(size: nat, count: nat) returns (current: int)
    requires count < TWO32
    ensures current == SeekStart(size, count)
  {
    hide Or;
    current := size;
    if current > 0 {
      var off := Or(count, 0xf);
      if off > INT_MAX / (64 * 1024) {
        off := INT_MAX / (64 * 1024);
      }
      current := current - Wrap32(off * (64 * 1024));
      if current < 0 {
        current := 0;
      }
    }
  }

  /** However large the file, less than 2^31 bytes are read. */
  lemma ShortSeek(size: nat, count: nat)
    ensures size - SeekStart(size, count) <= INT_MAX / 0x1_0000 * 0x1_0000
  {
    hide Or;
  }

  lemma {:induction false} OrAtLeast(a: nat, b: nat)
    ensures Or(a, b) >= a && Or(a, b) >= b
    decreases a + b
  {
    if a > 0 || b > 0 { OrAtLeast(a / 2, b / 2); }
  }

  /** Starting from the seek point gives the same lines. */
  lemma SeekIsSound(s: seq<byte>, count: nat, current: nat)
    requires ShortLines(s) && count >= 1 && current <= |s| && (current > 0 ==> |s| - current >= count * 0x1_0000)
    ensures LastLines(s[current..], count) == LastLines(s, count)
  {
    hide LastLines, ShortLines;
    if current > 0 {
      EnoughLines(s, count, current, |s| - current - count * 0xffff);
      BehindSeek(s[..current], s[current..], count);
      assert s == s[..current] + s[current..];
    } else {
      assert s[0..] == s;
    }
  }

  /** The seek can lose part of a longer line: of a single line of 983041 bytes, the last line
      is printed without its first byte. */
  lemma SeekLosesLongLine()
    ensures var s := Letters(983041); LastLines(s[SeekStart(|s|, 1)..], 1) != LastLines(s, 1)
  {
    var s := Letters(983041);
    assert Or(0, 0) == 0;
    assert Or(0, 1) == 1;
    assert Or(0, 3) == 3;
    assert Or(0, 7) == 7;
    assert Or(1, 0xf) == 15;
    assert SeekStart(|s|, 1) == 1;
    NoNewlineIn(s[1..]);
    SeekExact(s, 1, 1);
  }

  function Letters(n: nat): seq<byte> {
    seq(n, _ => 'a' as byte)
  }

  lemma {:induction false} NoNewlineIn(s: seq<byte>)
    requires forall i :: 0 <= i < |s| ==> s[i] != NEWLINE
    ensures Newlines(s) == 0
  {
    if s != [] { NoNewlineIn(s[..|s| - 1]); }
  }

  // ----- The buffer -----

  class TailBuffer {
    var tailbuf: array<byte>
    var taillen: nat
    var newlinesSeen: nat

    ghost predicate Valid()
      reads this
    {
      taillen + BUFSIZ <= tailbuf.Length
    }

    ghost function Held(): seq<byte>
      reads this, tailbuf
      requires Valid()
    {
      tailbuf[..taillen]
    }

    /** The line count agrees with the buffer. */
    ghost predicate Counted()
      reads this, tailbuf
    {
      Valid() && newlinesSeen == Newlines(Held())
    }

    constructor (size: nat)
      requires size >= BUFSIZ
      ensures Valid() && fresh(tailbuf) && tailbuf.Length == size && Held() == [] && Counted()
    {
      tailbuf := new byte[size];
      taillen, newlinesSeen := 0, 0;
    }

    /** Counts the newlines of the last read, from its end. */
    method CountNewlines(nread: nat) returns (n: nat)
      requires 0 < nread && taillen + nread <= tailbuf.Length
      ensures n == Newlines(tailbuf[taillen..taillen + nread])
    {
      var k := nread;
      n := 0;
      ghost var s := tailbuf[taillen..taillen + nread];
      assert s[nread..] == [];
      while k > 0
        invariant 0 <= k <= nread && n == Newlines(s[k..])
      {
        k := k - 1;
        NewlinesHead(s[k..]);
        assert s[k..][1..] == s[k + 1..];
        if tailbuf[taillen + k] == NEWLINE {
          n := n + 1;
        }
      }
      assert s[0..] == s;
    }

    /** The position behind the first k newlines.  It fails where the scan leaves the text. */
    method FindCut(k0: int, end: nat) returns (s: nat, ok: bool)
      requires end <= tailbuf.Length
      ensures ok <==> 0 <= k0 <= Newlines(tailbuf[..end])
      ensures ok ==> s <= end && tailbuf[s..end] == AfterNewlines(tailbuf[..end], k0)
    {
      ghost var text := tailbuf[..end];
      var k := k0;
      s := 0;
      assert text[0..] == text;
      while k != 0
        invariant 0 <= s <= end && k0 - k + Newlines(text[s..]) == Newlines(text) && (k0 < 0 ==> k < 0)
        invariant k0 >= 0 ==> k >= 0 && AfterNewlines(text[s..], k) == AfterNewlines(text, k0)
        decreases end - s
      {
        if s == end {
          assert text[s..] == [];
          NoNewlines();
          return s, false;
        }
        NewlinesHead(text[s..]);
        assert text[s..][1..] == text[s + 1..];
        if tailbuf[s] == NEWLINE {
          k := k - 1;
        }
        s := s + 1;
      }
      assert tailbuf[s..end] == text[s..];
      return s, true;
    }

    /** `memmove(tailbuf, tailbuf + from, n)`. */
    method MoveDown(from: nat, n: nat)
      requires from + n <= tailbuf.Length
      modifies tailbuf
      ensures tailbuf[..n] == old(tailbuf[from..from + n])
    {
      forall i | 0 <= i < n {
        tailbuf[i] := tailbuf[from + i];
      }
    }

    /** Keeps room for one more read. */
    method Grow()
      requires taillen <= tailbuf.Length
      modifies this`tailbuf
      ensures Valid() && tailbuf[..taillen] == old(tailbuf[..taillen]) && (tailbuf == old(tailbuf) || fresh(tailbuf))
      ensures tailbuf.Length == GrownSize(old(tailbuf.Length), taillen)
    {
      if tailbuf.Length < taillen + BUFSIZ {
        var bigger := new byte[taillen + BUFSIZ];
        forall i | 0 <= i < taillen {
          bigger[i] := tailbuf[i];
        }
        tailbuf := bigger;
      }
    }

    /** Takes in a read of `nread` bytes behind the text held. */
    method AddLines(nread: nat, count: nat) returns (ok: bool)
      requires Counted() && 0 < nread && taillen + nread <= tailbuf.Length && 1 <= count < TWO32
      requires Lines(Held()) <= count
      modifies this, tailbuf
      ensures ok <==> old(taillen) + nread <= INT_MAX && count <= INT_MAX
      ensures ok ==> Counted() && Lines(Held()) <= count && (tailbuf == old(tailbuf) || fresh(tailbuf))
      ensures ok ==> Held() == LastLines(old(Held() + tailbuf[taillen..taillen + nread]), count)
      ensures ok ==> tailbuf.Length == GrownSize(old(tailbuf.Length), taillen)
    {
      hide Newlines, AfterNewlines, LastLines, Lines;
      ghost var held, chunk := Held(), tailbuf[taillen..taillen + nread];
      ghost var text := tailbuf[..taillen + nread];
      assert text == held + chunk;
      NewlinesAppend(held, chunk);
      if taillen + nread > INT_MAX {
        return false;
      }
      var inBuf := CountNewlines(nread);
      if newlinesSeen + inBuf < AsInt(count) {
        AllLines(text, count);
        newlinesSeen := newlinesSeen + inBuf;
        taillen := taillen + nread;
      } else {
        ok := CutLines(taillen + nread, newlinesSeen + inBuf, count);
        if !ok {
          return false;
        }
      }
      ghost var kept := tailbuf[..taillen];
      Grow();
      assert Held() == kept;
      return true;
    }

    /** Drops the lines too many from the text up to `end`.  A count that is negative as an int asks
        for more newlines than there are. */
    method CutLines(end: nat, newlines: nat, count: nat) returns (ok: bool)
      requires 0 < end <= tailbuf.Length && end <= INT_MAX && newlines == Newlines(tailbuf[..end])
      requires 1 <= count < TWO32 && AsInt(count) <= newlines
      modifies this`taillen, this`newlinesSeen, tailbuf
      ensures ok <==> count <= INT_MAX
      ensures ok ==> taillen <= end && tailbuf[..taillen] == LastLines(old(tailbuf[..end]), count)
      ensures ok ==> newlinesSeen == Newlines(tailbuf[..taillen]) && Lines(tailbuf[..taillen]) <= count
    {
      hide Newlines, AfterNewlines, LastLines, Lines;
      ghost var text := tailbuf[..end];
      var extra := if tailbuf[end - 1] != NEWLINE then 1 else 0;
      assert extra == Extra(text);
      MoreBytesThanLines(text);
      var k := AsInt(Wrap32(newlines + extra - count));
      CutCount(newlines + extra, count);
      var s;
      s, ok := FindCut(k, end);
      if ok {
        CutResult(text, count, k);
        taillen := end - s;
        MoveDown(s, taillen);
        newlinesSeen := Wrap32(count - extra);
      }
    }

    /** Keeps the last bytes. */
    method AddBytes(nread: nat, count: nat) returns (ok: bool)
      requires Valid() && 0 < nread && taillen + nread <= tailbuf.Length && 1 <= count < TWO32
      requires taillen <= count && (count <= INT_MAX ==> count + BUFSIZ <= tailbuf.Length)
      modifies this`taillen, tailbuf
      ensures ok <==> old(taillen) + nread <= INT_MAX && count <= INT_MAX
      ensures ok ==> Valid() && taillen <= count
      ensures ok ==> Held() == LastBytes(old(Held() + tailbuf[taillen..taillen + nread]), count)
    {
      ghost var text := tailbuf[..taillen + nread];
      assert text == Held() + tailbuf[taillen..taillen + nread];
      if taillen + nread > INT_MAX {
        return false;
      }
      taillen := taillen + nread;
      if taillen > AsInt(count) {
        if taillen < count {
          // The bytes asked for begin before the buffer.
          return false;
        }
        assert tailbuf[taillen - count..taillen] == text[taillen - count..];
        MoveDown(taillen - count, count);
        taillen := count;
      }
      return true;
    }
  }

  /** How many newlines the cut is to skip. */
  lemma CutCount(lines: nat, count: nat)
    requires lines <= INT_MAX && 1 <= count < TWO32
    ensures var k := AsInt(Wrap32(lines - count));
            if count <= INT_MAX then k == lines - count else k < 0 || k > lines
  {
    if lines < count {
      WrapNegative(lines - count);
    }
  }

  lemma WrapNegative(v: int)
    requires v < 0 <= v + TWO32
    ensures Wrap32(v) == v + TWO32
  {
  }

  lemma {:induction false} MoreBytesThanLines(s: seq<byte>)
    ensures Newlines(s) + Extra(s) <= |s|
  {
  }

  /** With a count above INT_MAX the scan for the cut leaves even the shortest text. */
  lemma LinesBeyondInt()
    ensures AsInt(0xffff_ffff) == -1
    ensures AsInt(Wrap32(Lines([NEWLINE]) - 0xffff_ffff)) == 2 > Newlines([NEWLINE])
  {
    var line: seq<byte> := [NEWLINE];
    NoNewlines();
    assert line[..0] == [];
    assert Newlines(line) == 1;
  }

  lemma AllLines(text: seq<byte>, count: nat)
    requires Newlines(text) < count
    ensures LastLines(text, count) == text && Lines(text) <= count
  {
  }

  lemma CutResult(text: seq<byte>, count: nat, k: nat)
    requires 1 <= count <= Newlines(text) && k == Newlines(text) + Extra(text) - count
    ensures k <= Newlines(text) && LastLines(text, count) == AfterNewlines(text, k)
    ensures var r := AfterNewlines(text, k); Newlines(r) == count - Extra(text) && Lines(r) == count
  {
    hide AfterNewlines, Newlines;
    AfterCount(text, k);
    AfterExtra(text, k);
    if k == 0 { NothingAfter(text); }
  }

  lemma OneByte(s: seq<byte>)
    ensures |s| == 1 ==> s[1..] == []
  {
  }

  /** What is left ends as the text does, if a line is left. */
  lemma {:induction false} AfterExtra(s: seq<byte>, k: nat)
    requires k < Lines(s) && k <= Newlines(s)
    ensures AfterNewlines(s, k) != [] && Extra(AfterNewlines(s, k)) == Extra(s)
  {
    NoNewlines();
    if k > 0 {
      NewlinesHead(s);
      OneByte(s);
      AfterExtra(s[1..], if s[0] == NEWLINE then k - 1 else k);
    }
  }

  // ----- Reading -----

  /** How much one read takes, if there is something to read. */
  function ReadSize(events: seq<Event>, room: nat): nat {
    if events == [] || events[0].Error? then 0 else if |events[0].data| <= room then |events[0].data| else room
  }

  /** A read took n bytes of the first chunk. */
  ghost predicate Took(events: seq<Event>, n: nat, piece: seq<byte>, events': seq<Event>) {
    events != [] && events[0].Chunk? && n <= |events[0].data| && piece == events[0].data[..n] && events' == Remaining(events, n)
  }

  /** `tail_read` behind the text held: some bytes, or nothing more. */
  method TailRead(b: TailBuffer, events: seq<Event>) returns (nread: int, events': seq<Event>)
    requires b.Valid()
    modifies b.tailbuf
    ensures b.Valid() && b.Held() == old(b.Held()) && -1 <= nread <= b.tailbuf.Length - b.taillen
    ensures nread > 0 ==> nread == ReadSize(events, b.tailbuf.Length - b.taillen)
    ensures nread > 0 ==> InputOf(events) == b.tailbuf[b.taillen..b.taillen + nread] + InputOf(events')
    ensures nread > 0 ==> Took(events, nread, b.tailbuf[b.taillen..b.taillen + nread], events')
    ensures nread <= 0 ==> InputOf(events) == [] && events' == events && ReadSize(events, b.tailbuf.Length - b.taillen) == 0
  {
    hide InputOf, Remaining;
    NothingLeft(events);
    events' := events;
    if events == [] || (events[0].Chunk? && events[0].data == []) {
      return 0, events;
    }
    if events[0].Error? {
      return -1, events;
    }
    var data, room := events[0].data, b.tailbuf.Length - b.taillen;
    nread := if |data| <= room then |data| else room;
    CopyIn(b.tailbuf, b.taillen, data[..nread]);
    SplitInput([], events, nread);
    events' := Remaining(events, nread);
  }

  lemma {:induction false} LastNone(s: seq<byte>)
    ensures LastLines(s, 0) == []
  {
    AllGone(s, Lines(s));
    if Lines(s) == 0 { assert s == [] by { if s != [] { SomeLine(s); } } }
  }

  lemma {:induction false} AllGone(s: seq<byte>, k: nat)
    requires k >= Lines(s)
    ensures AfterNewlines(s, k) == []
  {
    if s == [] {
      AfterNothing(k);
    } else {
      SomeLine(s);
      NewlinesHead(s);
      if |s| == 1 { NoNewlines(); }
      AllGone(s[1..], if s[0] == NEWLINE then k - 1 else k);
    }
  }

  /** At no point of the stream do the lines held come near 2^31 bytes. */
  ghost predicate Fits(input: seq<byte>, count: nat) {
    forall n: nat :: n <= |input| ==> |LastLines(input[..n], count)| + BUFSIZ <= INT_MAX
  }

  lemma ShortFits(input: seq<byte>, count: nat)
    requires |input| + BUFSIZ <= INT_MAX
    ensures Fits(input, count)
  {
  }

  lemma HeldFits(input: seq<byte>, count: nat, done: seq<byte>, rest: seq<byte>)
    requires input == done + rest
    ensures Fits(input, count) ==> |LastLines(done, count)| + BUFSIZ <= INT_MAX
  {
    hide LastLines;
    assert input[..|done|] == done;
  }

  /** No int overflows in these reads: the text held behind `done` and the next read together never
      exceed INT_MAX bytes.  `size` is the size of the buffer. */
  ghost predicate ReadsFit(events: seq<Event>, done: seq<byte>, size: nat, count: nat)
    decreases |InputOf(events)|
  {
    var held := |LastLines(done, count)|;
    var n := ReadSize(events, if held <= size then size - held else 0);
    n == 0 ||
    (SplitInput([], events, n);
     var done' := done + events[0].data[..n];
     held + n <= INT_MAX && ReadsFit(Remaining(events, n), done', GrownSize(size, |LastLines(done', count)|), count))
  }

  function GrownSize(size: nat, held: nat): nat {
    if size < held + BUFSIZ then held + BUFSIZ else size
  }

  lemma FitStep(events: seq<Event>, events': seq<Event>, done: seq<byte>, piece: seq<byte>, size: nat, count: nat, n: nat)
    requires |LastLines(done, count)| <= size && n == ReadSize(events, size - |LastLines(done, count)|)
    requires n > 0 ==> Took(events, n, piece, events')
    ensures n == 0 ==> ReadsFit(events, done, size, count)
    ensures n > 0 ==> (ReadsFit(events, done, size, count) <==>
                       |LastLines(done, count)| + n <= INT_MAX && ReadsFit(events', done + piece, GrownSize(size, |LastLines(done + piece, count)|), count))
  {
    hide LastLines, InputOf;
  }

  /** Lines that stay short enough fit in whatever pieces they are read. */
  lemma {:induction false} FitsReads(input: seq<byte>, events: seq<Event>, done: seq<byte>, size: nat, count: nat)
    requires Fits(input, count) && input == done + InputOf(events) && |LastLines(done, count)| + BUFSIZ <= size <= INT_MAX
    ensures ReadsFit(events, done, size, count)
    decreases |InputOf(events)|
  {
    hide LastLines, Fits, Remaining, InputOf;
    var n := ReadSize(events, size - |LastLines(done, count)|);
    if n > 0 {
      SplitInput(done, events, n);
      var done', rest := done + events[0].data[..n], Remaining(events, n);
      HeldFits(input, count, done', InputOf(rest));
      FitsReads(input, rest, done', GrownSize(size, |LastLines(done', count)|), count);
    }
  }

  /** The buffer holds the last lines of `done`, and `ahead` is still to be read. */
  ghost predicate Following(b: TailBuffer, events0: seq<Event>, done: seq<byte>, ahead: seq<Event>, count: nat)
    reads b, b.tailbuf
  {
    && b.Counted() && done + InputOf(ahead) == InputOf(events0) && (done != [] ==> count <= INT_MAX)
    && (if count == 0 then b.Held() == [] else b.Held() == LastLines(done, count) && Lines(b.Held()) <= count)
    && (count > 0 ==> (ReadsFit(events0, [], BUFSIZ, count) <==> ReadsFit(ahead, done, b.tailbuf.Length, count)))
  }

  /** Takes in the read of `nread` bytes that lies behind the text held. */
  method TakeLines(b: TailBuffer, nread: nat, count: nat, ghost events0: seq<Event>, ghost done: seq<byte>, ghost ahead: seq<Event>, ghost events: seq<Event>)
    returns (ok: bool)
    requires Following(b, events0, done, ahead, count) && 0 < nread <= b.tailbuf.Length - b.taillen && count < TWO32
    requires nread == ReadSize(ahead, b.tailbuf.Length - b.taillen) && Took(ahead, nread, b.tailbuf[b.taillen..b.taillen + nread], events)
    requires InputOf(ahead) == b.tailbuf[b.taillen..b.taillen + nread] + InputOf(events)
    modifies b, b.tailbuf
    ensures ok ==> Following(b, events0, old(done + b.tailbuf[b.taillen..b.taillen + nread]), events, count)
    ensures ok ==> b.tailbuf == old(b.tailbuf) || fresh(b.tailbuf)
    ensures !ok ==> count > INT_MAX || (count > 0 && !ReadsFit(events0, [], BUFSIZ, count))
  {
    hide InputOf, LastLines, Lines, Newlines, ReadSize, ReadsFit, Took, GrownSize;
    ghost var chunk := b.tailbuf[b.taillen..b.taillen + nread];
    assert done + (chunk + InputOf(events)) == done + chunk + InputOf(events);
    ok := true;
    if count != 0 {
      LastLinesStream(done, chunk, count);
      FitStep(ahead, events, done, chunk, b.tailbuf.Length, count, nread);
      ok := b.AddLines(nread, count);
    }
  }

  /** Main result for -n: whatever pieces the stream is read in, its last lines are printed exactly
      if the count is an int and no int overflows in the reads. */
  method TailLines(events0: seq<Event>, count: nat) returns (out: seq<byte>, ok: bool)
    requires count < TWO32
    ensures ok ==> out == LastLines(InputOf(events0), count)
    ensures ok <==> InputOf(events0) == [] || count == 0 || (count <= INT_MAX && ReadsFit(events0, [], BUFSIZ, count))
    ensures Fits(InputOf(events0), count) ==> (ok <==> count <= INT_MAX || InputOf(events0) == [])
  {
    hide InputOf, LastLines, Lines, Newlines, Fits, ReadSize, ReadsFit, Took;
    var b := new TailBuffer(BUFSIZ);
    var events, nread := events0, 0;
    ghost var done: seq<byte>, input, ahead := [], InputOf(events0), events0;
    NoLines(count);
    if Fits(input, count) { FitsReads(input, events0, [], BUFSIZ, count); }
    nread, events := TailRead(b, events);
    while nread > 0
      invariant fresh(b) && fresh(b.tailbuf) && Following(b, events0, done, ahead, count) && nread <= b.tailbuf.Length - b.taillen
      invariant ReadSize(ahead, b.tailbuf.Length - b.taillen) == if nread > 0 then nread else 0
      invariant nread > 0 ==> Took(ahead, nread, b.tailbuf[b.taillen..b.taillen + nread], events)
      invariant InputOf(ahead) == if nread > 0 then b.tailbuf[b.taillen..b.taillen + nread] + InputOf(events) else []
      decreases nread > 0, |InputOf(ahead)|
    {
      ghost var chunk := b.tailbuf[b.taillen..b.taillen + nread];
      ok := TakeLines(b, nread, count, events0, done, ahead, events);
      if !ok {
        return [], false;
      }
      done := done + chunk;
      ahead := events;
      nread, events := TailRead(b, events);
    }
    out, ok := b.tailbuf[..b.taillen], true;
    assert done + [] == done;
    if count == 0 {
      LastNone(done);
    } else {
      FitStep(ahead, events, done, [], b.tailbuf.Length, count, 0);
    }
  }

  /** `tail -n` on a file that can be positioned: reading starts at the seek point.  With lines
      under 64K nothing is lost; otherwise the condition is exact. */
  method TailFile(file: seq<byte>, events: seq<Event>, count: nat) returns (out: seq<byte>, ok: bool)
    requires count < TWO32 && InputOf(events) == file[SeekStart(|file|, count)..]
    ensures ok ==> out == LastLines(file[SeekStart(|file|, count)..], count)
    ensures ok && ShortLines(file) && count <= INT_MAX / 0x1_0000 ==> out == LastLines(file, count)
    ensures var from := SeekStart(|file|, count);
            ok && count >= 1 && from > 0 ==>
            (out == LastLines(file, count) <==>
             Lines(file[from..]) > count || (Lines(file[from..]) == count && file[from - 1] == NEWLINE))
    ensures ok <==> count <= INT_MAX || file == []
  {
    hide InputOf, LastLines, Lines, ShortLines, Fits, SeekDistance;
    var from := SeekPoint(|file|, count);
    ghost var text := file[from..];
    out, ok := TailLines(events, count);
    ShortSeek(|file|, count);
    ShortFits(text, count);
    NothingSought(file, count);
    if ShortLines(file) && count <= INT_MAX / 0x1_0000 {
      if count >= 1 {
        SeekIsSound(file, count, from);
      } else {
        LastNone(text);
        LastNone(file);
      }
    }
    if count >= 1 && from > 0 {
      SeekExact(file, count, from);
    }
  }

  /** Nothing is left behind the seek point only if there is nothing at all. */
  lemma NothingSought(file: seq<byte>, count: nat)
    ensures file[SeekStart(|file|, count)..] == [] <==> file == []
  {
    hide Or;
    OrAtLeast(count, 0xf);
  }

  lemma NoLines(count: nat)
    ensures LastLines([], count) == [] && Lines([]) == 0
  {
  }

  /** Main result for -c: the last bytes are printed if the count is an int, and only then; a count
      within BUFSIZ of INT_MAX may overflow an int on a stream above INT_MAX bytes. */
  method TailBytes(events0: seq<Event>, count: nat) returns (out: seq<byte>, ok: bool)
    requires count < TWO32
    ensures ok ==> out == LastBytes(InputOf(events0), count)
    ensures ok ==> count <= INT_MAX || InputOf(events0) == []
    ensures count <= INT_MAX - BUFSIZ || count > INT_MAX || |InputOf(events0)| <= INT_MAX ==>
            (ok <==> count <= INT_MAX || InputOf(events0) == [])
  {
    hide InputOf, Newlines, LastBytes, Wrap32, ReadSize, Took;
    NotLonger([], count);
    var size := BUFSIZ;
    if size < Wrap32(count + BUFSIZ) {
      size := Wrap32(count + BUFSIZ);
    }
    var b := new TailBuffer(size);
    var events, nread := events0, 0;
    ghost var done: seq<byte>, input := [], InputOf(events0);
    nread, events := TailRead(b, events);
    while nread > 0
      invariant fresh(b) && fresh(b.tailbuf) && b.Valid() && nread <= b.tailbuf.Length - b.taillen
      invariant b.tailbuf.Length == size && (count <= INT_MAX ==> size == count + BUFSIZ)
      invariant nread > 0 ==> done + b.tailbuf[b.taillen..b.taillen + nread] + InputOf(events) == input
      invariant nread <= 0 ==> done == input
      invariant b.Held() == LastBytes(done, count) && b.taillen <= count && b.taillen <= |done|
      invariant done != [] ==> count <= INT_MAX
      decreases nread > 0, |InputOf(events)|
    {
      ghost var chunk := b.tailbuf[b.taillen..b.taillen + nread];
      if count != 0 {
        LastBytesStream(done, chunk, count);
        ok := b.AddBytes(nread, count);
        if !ok {
          return [], false;
        }
      }
      done := done + chunk;
      NotLonger(done, count);
      assert b.Held() == LastBytes(done, count);
      nread, events := TailRead(b, events);
    }
    out, ok := b.tailbuf[..b.taillen], true;
  }

  lemma NotLonger(s: seq<byte>, n: nat)
    ensures |LastBytes(s, n)| <= |s| && (n == 0 ==> LastBytes(s, n) == [])
  {
  }

  lemma LastBytesStream(a: seq<byte>, b: seq<byte>, n: nat)
    ensures LastBytes(a + b, n) == LastBytes(LastBytes(a, n) + b, n)
  {
  }

  // ----- The +N mode -----

  /** Behind the newlines of the first part. */
  lemma {:induction false} AfterSplit(a: seq<byte>, b: seq<byte>, k: nat)
    requires Newlines(a) < k
    ensures AfterNewlines(a, k) == [] && AfterNewlines(a + b, k) == AfterNewlines(b, k - Newlines(a))
  {
    if a == [] {
      NoNewlines();
      assert a + b == b;
      AfterNothing(k);
    } else {
      NewlinesHead(a);
      assert (a + b)[1..] == a[1..] + b;
      AfterSplit(a[1..], b, if a[0] == NEWLINE then k - 1 else k);
    }
  }

  /** Skips lines of one read: how many bytes of it are to be written, and the next line number. */
  method SkipLines(chunk: seq<byte>, seen0: nat, count: nat) returns (nwrite: nat, seen: nat)
    requires chunk != [] && seen0 < count
    ensures nwrite <= |chunk| && chunk[|chunk| - nwrite..] == AfterNewlines(chunk, count - seen0)
    ensures if seen0 + Newlines(chunk) < count then seen == seen0 + Newlines(chunk) && nwrite == 0 else seen == count
  {
    hide AfterNewlines, Newlines;
    nwrite, seen := |chunk|, seen0;
    assert chunk[0..] == chunk;
    while nwrite > 0
      invariant 0 <= nwrite <= |chunk| && seen0 <= seen < count
      invariant AfterNewlines(chunk[|chunk| - nwrite..], count - seen) == AfterNewlines(chunk, count - seen0)
      invariant seen + Newlines(chunk[|chunk| - nwrite..]) == seen0 + Newlines(chunk)
    {
      ghost var s := chunk[|chunk| - nwrite..];
      AfterStep(s, count - seen);
      NewlinesHead(s);
      nwrite := nwrite - 1;
      assert s[1..] == chunk[|chunk| - nwrite..];
      if chunk[|chunk| - nwrite - 1] == NEWLINE {
        seen := seen + 1;
        if seen == count {
          NothingAfter(s[1..]);
          return;
        }
      }
    }
    assert chunk[|chunk|..] == [];
    NoNewlines();
    AfterNothing(count - seen);
  }

  lemma AfterStep(s: seq<byte>, k: nat)
    requires k >= 1 && s != []
    ensures AfterNewlines(s, k) == AfterNewlines(s[1..], if s[0] == NEWLINE then k - 1 else k)
  {
  }

  /** Main result for +N with lines: everything from line N on. */
  method FromLine(events0: seq<Event>, count: nat) returns (out: seq<byte>)
    requires count < TWO32
    ensures out == AfterNewlines(InputOf(events0), if count == 0 then 0 else count - 1)
  {
    hide InputOf, AfterNewlines, Newlines, Took, ReadSize;
    var b := new TailBuffer(BUFSIZ);
    var events, nread, seen := events0, 0, 1;
    ghost var done: seq<byte>, k := [], if count == 0 then 0 else count - 1;
    out := [];
    NoNewlines();
    NothingAfter([]);
    AfterNothing(k);
    nread, events := TailRead(b, events);
    while nread > 0
      invariant fresh(b) && fresh(b.tailbuf) && b.Valid() && b.taillen == 0 && nread <= b.tailbuf.Length
      invariant nread > 0 ==> done + b.tailbuf[0..nread] + InputOf(events) == InputOf(events0)
      invariant nread <= 0 ==> done == InputOf(events0)
      invariant out == AfterNewlines(done, k) && (if seen < count then seen == 1 + Newlines(done) else k <= Newlines(done))
      decreases nread > 0, |InputOf(events)|
    {
      var chunk := b.tailbuf[0..nread];
      NewlinesAppend(done, chunk);
      var nwrite := nread;
      if seen < count {
        AfterSplit(done, chunk, k);
        nwrite, seen := SkipLines(chunk, seen, count);
      } else {
        AfterAppend(done, chunk, k);
      }
      if nwrite > 0 {
        out := out + chunk[nread - nwrite..];
      } else {
        assert chunk[nread..] == [];
      }
      done := done + chunk;
      nread, events := TailRead(b, events);
    }
  }

  /** Main result for +N with bytes: everything from byte N on, exactly if the bytes left to skip
      behind the first read are not above 2^31. */
  method FromByte(events0: seq<Event>, count: nat) returns (out: seq<byte>, ok: bool)
    requires count < TWO32
    ensures ok ==> out == FromNth(InputOf(events0), count)
    ensures ok <==> InputOf(events0) == [] || count <= 0x8000_0001 + ReadSize(events0, BUFSIZ)
  {
    hide InputOf, FromNth, Wrap32, ReadSize, AsInt, Took;
    var b := new TailBuffer(BUFSIZ);
    var events, nread, seen: nat := events0, 0, 1;
    ghost var done: seq<byte>, first := [], ReadSize(events0, BUFSIZ);
    out := [];
    NoneFrom(count);
    nread, events := TailRead(b, events);
    while nread > 0
      invariant fresh(b) && fresh(b.tailbuf) && b.Valid() && b.taillen == 0 && b.tailbuf.Length == BUFSIZ && nread <= BUFSIZ
      invariant nread > 0 ==> done + b.tailbuf[0..nread] + InputOf(events) == InputOf(events0)
      invariant nread <= 0 ==> done == InputOf(events0)
      invariant out == FromNth(done, count) && (if seen < count then seen == 1 + |done| else count <= 1 + |done|)
      invariant done == [] && nread > 0 ==> nread == first
      invariant done != [] ==> count <= 0x8000_0001 + first && first <= |done|
      decreases nread > 0, |InputOf(events)|
    {
      var chunk := b.tailbuf[0..nread];
      var nwrite: int := nread;
      if seen < count {
        nwrite := AsInt(Wrap32(nread - (count - seen)));
        SkipCount(nread, count - seen);
        if nwrite > nread {
          // What is written would begin before the buffer.
          return [], false;
        }
        seen := Wrap32(seen + nread);
      }
      FromMore(done, chunk, count);
      if nwrite > 0 {
        out := out + chunk[nread - nwrite..];
      }
      done := done + chunk;
      nread, events := TailRead(b, events);
    }
    ok := true;
  }

  /** Everything from byte N on; the first byte is number one. */
  function FromNth(s: seq<byte>, count: nat): seq<byte> {
    var k := if count == 0 then 0 else count - 1;
    if k <= |s| then s[k..] else []
  }

  /** Byte N of a text is the one behind N less one bytes; zero counts as one. */
  lemma FromNthIs(a: seq<byte>, b: seq<byte>)
    ensures FromNth(a + b, |a| + 1) == b && FromNth(b, 0) == b && FromNth(a, |a| + 2) == []
  {
  }

  lemma NoneFrom(count: nat)
    ensures FromNth([], count) == []
  {
  }

  lemma FromMore(done: seq<byte>, chunk: seq<byte>, count: nat)
    ensures FromNth(done + chunk, count) ==
            FromNth(done, count) + (if count <= 1 + |done| then chunk else
                                    if count - 1 - |done| <= |chunk| then chunk[count - 1 - |done|..] else [])
    ensures count > 1 + |done| ==> FromNth(done, count) == []
  {
  }

  /** The unsigned difference, as an int. */
  lemma SkipCount(nread: nat, skip: nat)
    requires nread <= BUFSIZ && 1 <= skip < TWO32
    ensures var n := AsInt(Wrap32(nread - skip));
            if skip > 0x8000_0000 + nread then n > nread else n == nread - skip
  {
    if nread < skip {
      WrapNegative(nread - skip);
    }
  }

  /** A count just above the limit on a stream of one byte: two bytes too many would be written. */
  lemma BytesBeyondInt()
    ensures var n := AsInt(Wrap32(1 - (0xffff_ffff - 1))); n == 3
  {
    WrapNegative(1 - (0xffff_ffff - 1));
  }
}
