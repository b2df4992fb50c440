/** The sliding window over the input and its dictionary (`fill_window`, `lm_init`). */
module Windows {
  import opened Bits
  import opened Readers
  import opened Matching

  /** Distance from strstart - 1 back to the match, in 32-bit arithmetic. */
  function Back(strstart: nat, matchStart: nat): nat {
    Wrap32(strstart - 1 - matchStart)
  }

  /** How far behind its array the program may read: MAX_MATCH bytes behind a string that starts
      three bytes before the end of the window are compared. */
  const OVERREAD: nat := MAX_MATCH - 2

  class SlidingWindow {
    /** Twice WSIZE bytes.  The program's array ends there; where the input ends without a slide,
        comparisons and hashes read up to OVERREAD cells behind it.  Here those cells exist, and
        nothing is known about their contents. */
    const window: array<byte>
    const prev: array<nat>
    const head: array<nat>
    const reader: Reader
    var insH: nat
    var strstart: nat
    /** A 32-bit unsigned: it may wrap below zero when the window slides. */
    var matchStart: nat
    var lookahead: nat
    var blockStart: int
    var eofile: bool
    /** Position of window[0] in the input. */
    ghost var base: nat

    ghost predicate Shape() {
      && window.Length == WINDOW_SIZE + OVERREAD && prev.Length == WSIZE && head.Length == HASH_SIZE
      && prev != head && prev as object != window && head as object != window
    }

    /** The window holds the last part of the input read so far.  A read that finds the end has
        asked for two bytes or more, so that many stay free. */
    ghost predicate Held()
      reads this, window, reader
    {
      && Shape() && strstart + lookahead <= WINDOW_SIZE && base + strstart + lookahead == |reader.delivered|
      && window[..strstart + lookahead] == reader.delivered[base..]
      && (eofile ==> strstart + lookahead <= WINDOW_SIZE - 2)
    }

    /** The strings in front of position n have been inserted. */
    ghost predicate LinkedTo(n: nat)
      reads window, prev, head
    {
      Shape() && Chained(window[..], head[..], prev[..], n)
    }

    ghost predicate Linked()
      reads this, window, prev, head
    {
      LinkedTo(strstart)
    }

    /** The next insertion will compute the hash of the string at position n. */
    ghost predicate HashReady(n: nat)
      reads this, window
    {
      Shape() && n <= WINDOW_SIZE && Rolling(insH, window[n], window[n + 1])
    }

    /** Position in the input of the string at strstart. */
    ghost function Pos(): nat
      reads this
    {
      base + strstart
    }

    /** The end of the input has been reached exactly when nothing is left to read. */
    ghost predicate Fed(input: seq<byte>)
      reads this, reader
    {
      reader.Valid() && reader.delivered + InputOf(reader.events) == input && (eofile ==> InputOf(reader.events) == [])
    }

    constructor (reader: Reader)
      requires reader.Valid()
      ensures Shape() && this.reader == reader && fresh(window) && fresh(prev) && fresh(head)
      ensures strstart == matchStart == lookahead == insH == blockStart == base == 0 && !eofile
    {
      window := new byte[WINDOW_SIZE + OVERREAD];
      prev := new nat[WSIZE];
      head := new nat[HASH_SIZE];
      this.reader := reader;
      insH, strstart, matchStart, lookahead, blockStart, base, eofile := 0, 0, 0, 0, 0, 0, false;
    }

    /** Moves the upper half of the window to the lower one. */
    method Slide()
      requires Held() && Linked() && strstart >= WSIZE + MAX_DIST && lookahead >= 2
      modifies this`strstart, this`matchStart, this`blockStart, this`base, window, prev, head
      ensures Held() && Linked() && strstart == old(strstart) - WSIZE && base == old(base) + WSIZE
      ensures blockStart == old(blockStart) - WSIZE && Back(strstart, matchStart) == old(Back(strstart, matchStart))
      ensures forall i :: 0 <= i < HASH_SIZE ==> head[i] == if old(head[i]) >= WSIZE then old(head[i]) - WSIZE else 0
      ensures forall i :: 0 <= i < WSIZE ==> prev[i] == if old(prev[i]) >= WSIZE then old(prev[i]) - WSIZE else 0
    {
      hide Chained, Back;
      ghost var w, h: seq<nat>, p: seq<nat> := window[..], head[..], prev[..];
      forall i | 0 <= i < WSIZE {
        window[i] := window[i + WSIZE];
      }
      BackSlides(strstart, matchStart);
      matchStart := Wrap32(matchStart - WSIZE);
      strstart := strstart - WSIZE;
      blockStart := blockStart - WSIZE;
      base := base + WSIZE;
      SlideTable(head);
      SlideTable(prev);
      assert head[..] == SlidAll(h) && prev[..] == SlidAll(p);
      SlideKeeps(w, window[..], h, p, strstart + WSIZE);
      SlidHeld(w, window[..], reader.delivered, base - WSIZE, strstart + lookahead + WSIZE);
    }

    /** Makes room if necessary and reads once. */
    method FillWindow(ghost input: seq<byte>) returns (more: nat)
      requires Held() && Linked() && Fed(input) && !eofile && lookahead < MIN_LOOKAHEAD && (strstart > 0 ==> lookahead >= 2)
      modifies this, window, prev, head, reader
      ensures Held() && Linked() && Fed(input) && insH == old(insH)
      ensures Pos() == old(Pos()) && base + blockStart == old(base + blockStart) && Back(strstart, matchStart) == old(Back(strstart, matchStart))
      ensures old(reader.delivered) <= reader.delivered && old(lookahead) <= lookahead <= old(lookahead) + more
      ensures if old(lookahead) == lookahead then eofile else !eofile
      ensures 2 <= more == WINDOW_SIZE - old(lookahead) - strstart
      ensures strstart == if old(strstart) >= WSIZE + MAX_DIST then old(strstart) - WSIZE else old(strstart)
    {
      hide Chained, Wrap32, InputOf, Back;
      more := WINDOW_SIZE - lookahead - strstart;
      if strstart >= WSIZE + MAX_DIST {
        Slide();
        more := more + WSIZE;
      }
      ReadMore(more, input);
    }

    /** Reads behind the bytes that are held; no string that was inserted changes. */
    method ReadMore(more: nat, ghost input: seq<byte>)
      requires Held() && Linked() && Fed(input) && !eofile && (strstart > 0 ==> lookahead >= 2)
      requires 2 <= more == WINDOW_SIZE - lookahead - strstart
      modifies this`lookahead, this`eofile, window, reader
      ensures Held() && Linked() && Fed(input)
      ensures old(reader.delivered) <= reader.delivered && old(lookahead) <= lookahead <= old(lookahead) + more
      ensures if old(lookahead) == lookahead then eofile else !eofile
    {
      hide Chained, InputOf, Reader.Valid;
      ghost var w, h: seq<nat>, p: seq<nat>, data, end := window[..], head[..], prev[..], reader.delivered, strstart + lookahead;
      var n := reader.FileRead(window, strstart + lookahead, more);
      ghost var w' := window[..];
      assert head[..] == h && prev[..] == p;
      assert w'[..end] == w[..end];
      LinksStay(w, w', h, p, strstart, end);
      if n == 0 || n == -1 {
        eofile := true;
      } else {
        ghost var piece, data' := w'[end..end + n], reader.delivered;
        assert window[end..end + n] == piece;
        assert data' == data + piece;
        ReadHeld(w, w', data, base, end, n, data');
        lookahead := lookahead + n;
        assert window[..strstart + lookahead] == w'[..end + n];
      }
    }

    method FillIfNeeded(ghost input: seq<byte>)
      requires Held() && Linked() && Fed(input) && (strstart > 0 && !eofile ==> lookahead >= 2)
      modifies this, window, prev, head, reader
      ensures Held() && Linked() && Fed(input) && insH == old(insH)
      ensures Pos() == old(Pos()) && base + blockStart == old(base + blockStart) && Back(strstart, matchStart) == old(Back(strstart, matchStart))
      ensures old(reader.delivered) <= reader.delivered && lookahead >= old(lookahead) && (eofile || lookahead >= MIN_LOOKAHEAD)
      ensures old(eofile) ==> window[..] == old(window[..]) && strstart == old(strstart)
      ensures old(strstart) > 0 ==> strstart > 0
    {
      hide Back;
      while lookahead < MIN_LOOKAHEAD && !eofile
        invariant Held() && Linked() && Fed(input) && insH == old(insH) && (strstart > 0 && !eofile ==> lookahead >= 2)
        invariant Pos() == old(Pos()) && base + blockStart == old(base + blockStart) && Back(strstart, matchStart) == old(Back(strstart, matchStart))
        invariant old(reader.delivered) <= reader.delivered && lookahead >= old(lookahead)
        invariant old(eofile) ==> eofile && window[..] == old(window[..]) && strstart == old(strstart)
        invariant old(strstart) > 0 ==> strstart > 0
        decreases !eofile, MIN_LOOKAHEAD - lookahead
      {
        var _ := FillWindow(input);
      }
    }

    /** Filling keeps the running hash ready, because the two bytes it has taken in stay. */
    method FillKeepingHash(ghost input: seq<byte>)
      requires Held() && Linked() && Fed(input) && HashReady(strstart) && (eofile || lookahead >= 2)
      modifies this, window, prev, head, reader
      ensures Held() && Linked() && Fed(input) && HashReady(strstart) && (eofile || lookahead >= MIN_LOOKAHEAD)
      ensures Pos() == old(Pos()) && base + blockStart == old(base + blockStart) && Back(strstart, matchStart) == old(Back(strstart, matchStart))
      ensures old(reader.delivered) <= reader.delivered && (old(strstart) > 0 ==> strstart > 0)
    {
      hide Rolling, Back, SlidingWindow.LinkedTo, SlidingWindow.Fed;
      ghost var w, data, s, b, end := window[..], reader.delivered, strstart, base, strstart + lookahead;
      FillIfNeeded(input);
      ghost var w' := window[..];
      if !old(eofile) {
        SameTwo(w, data, b, end, s, w', reader.delivered, base, strstart + lookahead, strstart);
      }
      assert w'[strstart] == w[s] && w'[strstart + 1] == w[s + 1];
    }

    /** `lm_init`: the first reads, and the hash of the first two bytes. */
    method LmInit(ghost input: seq<byte>)
      requires Shape() && Fed(input) && reader.delivered == [] && !eofile
      requires strstart == matchStart == lookahead == insH == blockStart == base == 0
      modifies this, window, prev, head, reader
      ensures Held() && Linked() && Fed(input) && Pos() == 0 && blockStart == 0 && (eofile || lookahead >= MIN_LOOKAHEAD)
      ensures lookahead > 0 ==> HashReady(strstart)
    {
      hide Chained, Rolling, UpdateHash, InputOf, Back;
      FirstRead(input);
      if eofile {
        return;
      }
      FillIfNeeded(input);
      HashFirstTwo();
    }

    method FirstRead(ghost input: seq<byte>)
      requires Shape() && Fed(input) && reader.delivered == [] && !eofile && strstart == lookahead == base == 0
      modifies this`lookahead, this`eofile, window, head, reader
      ensures Held() && Linked() && Fed(input) && (eofile ==> lookahead == 0)
    {
      hide Chained, InputOf, Reader.Valid;
      ClearTable(head);
      ghost var h: seq<nat>, p: seq<nat>, w := head[..], prev[..], window[..];
      ClearedChains(w, h, p);
      var n := reader.FileRead(window, 0, WINDOW_SIZE);
      assert head[..] == h && prev[..] == p;
      EmptyChains(w, window[..], h, p);
      if n == 0 || n == -1 {
        eofile, lookahead := true, 0;
      } else {
        lookahead := n;
        assert window[..n] == window[0..n];
      }
    }

    method HashFirstTwo()
      requires Shape() && strstart == 0
      modifies this`insH
      ensures HashReady(0)
    {
      hide Rolling, UpdateHash;
      RollingTwo(insH, window[0], window[1]);
      ghost var h := insH;
      for j := 0 to MIN_MATCH - 1
        invariant insH == if j == 0 then h else if j == 1 then UpdateHash(h, window[0]) else UpdateHash(UpdateHash(h, window[0]), window[1])
      {
        insH := UpdateHash(insH, window[j]);
      }
    }

    /** `INSERT_STRING(strstart, hashHead)`. */
    method Insert() returns (hashHead: nat)
      requires Linked() && HashReady(strstart) && strstart < WINDOW_SIZE
      modifies this`insH, prev, head
      ensures LinkedTo(strstart + 1) && HashReady(strstart + 1) && Link(window[..], hashHead, strstart, HashAt(window[..], strstart))
      ensures var h := HashAt(window[..], strstart);
              h < HASH_SIZE && hashHead == old(head[..])[h] && head[..] == old(head[..])[h := strstart]
              && prev[..] == old(prev[..])[strstart % WSIZE := hashHead]
    {
      hide Chained, Rolling, UpdateHash, Link, HashAt;
      insH, hashHead := InsertString(window, prev, head, insH, strstart);
    }

    /** Behind a match: inserts the strings that start within it and moves to its end.  The match
        began one byte before strstart. */
    method Skip(length: nat)
      requires Held() && LinkedTo(strstart + 1) && HashReady(strstart + 1) && MIN_MATCH <= length <= lookahead + 1
      modifies this`insH, this`strstart, this`lookahead, prev, head
      ensures Held() && Linked() && HashReady(strstart)
      ensures strstart == old(strstart) + length - 1 && lookahead == old(lookahead) - (length - 1)
    {
      hide Chained, Rolling, HashAt, Link;
      ghost var start, end := strstart, strstart + lookahead;
      lookahead := lookahead - (length - 1);
      var left := length - 2;
      while left != 0
        invariant 0 <= left && strstart + left == start + length - 2 && lookahead == end - start - (length - 1)
        invariant LinkedTo(strstart + 1) && HashReady(strstart + 1)
      {
        strstart := strstart + 1;
        var _ := Insert();
        left := left - 1;
      }
      strstart := strstart + 1;
    }

    method Advance()
      requires Held() && LinkedTo(strstart + 1) && HashReady(strstart + 1) && lookahead >= 1
      modifies this`strstart, this`lookahead
      ensures Held() && Linked() && HashReady(strstart) && strstart == old(strstart) + 1 && lookahead == old(lookahead) - 1
    {
      hide Chained, Rolling;
      strstart := strstart + 1;
      lookahead := lookahead - 1;
    }
  }

  method ClearTable(t: array<nat>)
    modifies t
    ensures forall k :: 0 <= k < t.Length ==> t[k] == 0
  {
    for n := 0 to t.Length
      invariant forall k :: 0 <= k < n ==> t[k] == 0
    {
      t[n] := 0;
    }
  }

  lemma ClearedChains(w: seq<byte>, head: seq<nat>, prev: seq<nat>)
    requires |head| == HASH_SIZE && |prev| == WSIZE && |w| >= 2 && forall k :: 0 <= k < |head| ==> head[k] == 0
    ensures Chained(w, head, prev, 0)
  {
    forall h | 0 <= h < HASH_SIZE ensures HeadOk(w, head, 0, h) {
    }
  }

  method SlideTable(t: array<nat>)
    modifies t
    ensures t[..] == SlidAll(old(t[..]))
  {
    for n := 0 to t.Length
      invariant forall k :: 0 <= k < n ==> t[k] == Slid(old(t[k]))
      invariant forall k :: n <= k < t.Length ==> t[k] == old(t[k])
    {
      t[n] := Slid(t[n]);
    }
  }

  lemma BackSlides(strstart: nat, matchStart: nat)
    requires strstart >= WSIZE
    ensures Back(strstart - WSIZE, Wrap32(matchStart - WSIZE)) == Back(strstart, matchStart)
  {
  }

  lemma SlidHeld(w: seq<byte>, w': seq<byte>, data: seq<byte>, base: nat, end: nat)
    requires WSIZE <= end <= WINDOW_SIZE <= |w| && |w'| == |w| && base + end == |data| && w[..end] == data[base..]
    requires forall i :: 0 <= i < WSIZE ==> w'[i] == w[i + WSIZE]
    ensures w'[..end - WSIZE] == data[base + WSIZE..]
  {
    forall i | 0 <= i < end - WSIZE ensures w'[i] == data[base + WSIZE + i] {
      assert w'[i] == w[i + WSIZE] == w[..end][i + WSIZE];
    }
  }

  lemma LinksStay(w: seq<byte>, w': seq<byte>, head: seq<nat>, prev: seq<nat>, next: nat, end: nat)
    requires Chained(w, head, prev, next) && |w'| == |w| && end <= |w| && (next > 0 ==> next + 2 <= end) && w'[..end] == w[..end]
    ensures Chained(w', head, prev, next)
  {
    if next > 0 {
      assert w'[..next + 2] == w'[..end][..next + 2] && w[..next + 2] == w[..end][..next + 2];
      ChainsSame(w, w', head, prev, next);
    } else {
      EmptyChains(w, w', head, prev);
    }
  }

  lemma EmptyChains(w: seq<byte>, w': seq<byte>, head: seq<nat>, prev: seq<nat>)
    requires Chained(w, head, prev, 0) && |w'| == |w|
    ensures Chained(w', head, prev, 0)
  {
    hide HashAt;
    forall h | 0 <= h < HASH_SIZE ensures HeadOk(w', head, 0, h) {
      assert HeadOk(w, head, 0, h);
    }
  }

  lemma ReadHeld(w: seq<byte>, w': seq<byte>, data: seq<byte>, base: nat, end: nat, n: nat, data': seq<byte>)
    requires end + n <= |w| == |w'| && base + end == |data| && w[..end] == data[base..] && w'[..end] == w[..end]
    requires data' == data + w'[end..end + n]
    ensures w'[..end + n] == data'[base..] && |data'| == base + end + n
  {
    assert w'[..end + n] == w'[..end] + w'[end..end + n];
  }

  lemma HeldByte(w: seq<byte>, data: seq<byte>, base: nat, end: nat, i: nat)
    requires i < end <= |w| && base + end == |data| && w[..end] == data[base..]
    ensures w[i] == data[base + i]
  {
    assert w[..end][i] == data[base..][i];
  }

  /** The same two bytes of the input, before and after filling the window. */
  lemma SameTwo(w: seq<byte>, data: seq<byte>, base: nat, end: nat, s: nat, w': seq<byte>, data': seq<byte>, base': nat, end': nat, s': nat)
    requires s + 2 <= end <= |w| && base + end == |data| && w[..end] == data[base..] && data <= data'
    requires s' + 2 <= end' <= |w'| && base' + end' == |data'| && w'[..end'] == data'[base'..] && base + s == base' + s'
    ensures w[s] == w'[s'] && w[s + 1] == w'[s' + 1]
  {
    HeldByte(w, data, base, end, s);
    HeldByte(w, data, base, end, s + 1);
    HeldByte(w', data', base', end', s');
    HeldByte(w', data', base', end', s' + 1);
  }
}
