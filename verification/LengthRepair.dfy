/** The length-limiting repair of `gen_bitlen`, on the counts of code lengths.

    Cutting lengths off at the limit overfills the code space.  Every step moves one shorter
    code down a level and takes one overlong code as its brother; that frees exactly one unit
    of the overfull space and keeps the number of codes. */
module LengthRepair {
  import opened Bits

  /** Kraft sum of the codes of lengths 1..upto, in units of 2^-max. */
  ghost function CntKraft(bl: seq<nat>, max: nat, upto: nat): int
    requires upto < |bl| && upto <= max
  {
    if upto == 0 then 0 else CntKraft(bl, max, upto - 1) + bl[upto] * Pow2(max - upto)
  }

  /** Number of codes of lengths 1..upto. */
  ghost function CntTotal(bl: seq<nat>, upto: nat): int
    requires upto < |bl|
  {
    if upto == 0 then 0 else CntTotal(bl, upto - 1) + bl[upto]
  }

  /** The counts overfill the code space by `excess` units; enough codes have the full length. */
  ghost predicate Overfull(bl: seq<nat>, max: nat, excess: nat, total: nat) {
    && |bl| == MAX_BITS + 1 && 1 <= max <= MAX_BITS && bl[0] == 0
    && (forall l :: max < l <= MAX_BITS ==> bl[l] == 0)
    && CntKraft(bl, max, max) == Pow2(max) + excess
    && CntTotal(bl, max) == total < Pow2(max)
    && (excess > 0 ==> bl[max] > excess)
  }

  lemma {:induction false} KraftUpdate(bl: seq<nat>, max: nat, upto: nat, l: nat, d: int)
    requires upto < |bl| && upto <= max && 1 <= l < |bl| && l <= max && bl[l] + d >= 0
    ensures CntKraft(bl[l := bl[l] + d], max, upto) == CntKraft(bl, max, upto) + if l <= upto then d * Pow2(max - l) else 0
  {
    if upto > 0 {
      KraftUpdate(bl, max, upto - 1, l, d);
      if l == upto {
        Spread(bl[l], d, Pow2(max - l));
      }
    }
  }

  lemma Spread(w: int, d: int, p: int)
    ensures (w + d) * p == w * p + d * p
  {
  }

  lemma {:induction false} TotalUpdate(bl: seq<nat>, upto: nat, l: nat, d: int)
    requires upto < |bl| && 1 <= l < |bl| && bl[l] + d >= 0
    ensures CntTotal(bl[l := bl[l] + d], upto) == CntTotal(bl, upto) + if l <= upto then d else 0
  {
    if upto > 0 { TotalUpdate(bl, upto - 1, l, d); }
  }

  /** The three count updates of one repair step. */
  ghost function RepairAt(bl: seq<nat>, b: nat, max: nat): (r: seq<nat>)
    requires 1 <= b < max < |bl| && bl[b] > 0 && bl[max] > 0
    ensures |r| == |bl|
  {
    var bl1 := bl[b := bl[b] - 1];
    var bl2 := bl1[b + 1 := bl1[b + 1] + 2];
    bl2[max := bl2[max] - 1]
  }

  /** One step removes one unit of excess and keeps the number of codes. */
  lemma RepairStep(bl: seq<nat>, b: nat, max: nat, excess: nat, total: nat)
    requires Overfull(bl, max, excess, total) && excess > 0 && 1 <= b < max && bl[b] > 0
    ensures Overfull(RepairAt(bl, b, max), max, excess - 1, total) && RepairAt(bl, b, max)[max] >= excess
  {
    hide CntKraft, CntTotal;
    var bl1 := bl[b := bl[b] - 1];
    var bl2 := bl1[b + 1 := bl1[b + 1] + 2];
    KraftUpdate(bl, max, max, b, -1);
    KraftUpdate(bl1, max, max, b + 1, 2);
    KraftUpdate(bl2, max, max, max, -1);
    TotalUpdate(bl, max, b, -1);
    TotalUpdate(bl1, max, b + 1, 2);
    TotalUpdate(bl2, max, max, -1);
    assert Pow2(max - b) == 2 * Pow2(max - (b + 1));
  }

  lemma {:induction false} NothingShorter(bl: seq<nat>, max: nat, upto: nat)
    requires upto < |bl| && upto <= max && forall l :: 1 <= l <= upto ==> bl[l] == 0
    ensures CntKraft(bl, max, upto) == 0 && CntTotal(bl, upto) == 0
  {
    if upto > 0 { NothingShorter(bl, max, upto - 1); }
  }

  /** An overfull set of counts always has a code shorter than the limit. */
  lemma ShorterExists(bl: seq<nat>, max: nat, excess: nat, total: nat)
    requires Overfull(bl, max, excess, total)
    ensures exists l :: 1 <= l < max && bl[l] > 0
  {
    if forall l :: 1 <= l <= max - 1 ==> bl[l] == 0 {
      NothingShorter(bl, max, max - 1);
    }
  }

  /** The greatest length up to l that some code has; zero if there is none. */
  ghost function LongestUpTo(bl: seq<nat>, l: nat): (b: nat)
    requires l < |bl|
    ensures b <= l && (b > 0 ==> bl[b] > 0) && forall k :: b < k <= l ==> bl[k] == 0
  {
    if l == 0 || bl[l] > 0 then l else LongestUpTo(bl, l - 1)
  }

  /** All steps of the repair: each moves down a longest code below the limit. */
  ghost function RepairAll(bl: seq<nat>, max: nat, excess: nat): (r: seq<nat>)
    ensures |r| == |bl|
    decreases excess
  {
    if excess == 0 || max >= |bl| || max == 0 || bl[max] == 0 || LongestUpTo(bl, max - 1) == 0 then bl
    else RepairAll(RepairAt(bl, LongestUpTo(bl, max - 1), max), max, excess - 1)
  }

  lemma RepairAllStep(bl: seq<nat>, b: nat, max: nat, excess: nat, total: nat)
    requires Overfull(bl, max, excess, total) && excess > 0 && 1 <= b < max && bl[b] > 0 && forall l :: b < l < max ==> bl[l] == 0
    ensures RepairAll(bl, max, excess) == RepairAll(RepairAt(bl, b, max), max, excess - 1)
  {
    hide CntKraft, CntTotal, RepairAt;
    assert LongestUpTo(bl, max - 1) == b;
  }

  // ----- What the repair keeps -----

  /** How much excess the codes of the lengths above b and below the limit can take in, if every
      one is replaced by codes of the full length. */
  ghost function CntRoom(bl: seq<nat>, max: nat, b: nat): int
    requires max < |bl|
    decreases max - b
  {
    if b + 1 >= max then 0 else CntRoom(bl, max, b + 1) + bl[b + 1] * (Pow2(max - b - 1) - 1)
  }

  lemma {:induction false} RoomUpdate(bl: seq<nat>, max: nat, b: nat, l: nat, d: int)
    requires max < |bl| && l <= max && bl[l] + d >= 0
    ensures CntRoom(bl[l := bl[l] + d], max, b) == CntRoom(bl, max, b) + if b < l < max then d * (Pow2(max - l) - 1) else 0
    decreases max - b
  {
    if b + 1 < max {
      RoomUpdate(bl, max, b + 1, l, d);
      if l == b + 1 { Spread(bl[l], d, Pow2(max - l) - 1); }
    }
  }

  lemma {:induction false} NoRoom(bl: seq<nat>, max: nat, b: nat)
    requires max < |bl| && forall l :: b < l < max ==> bl[l] == 0
    ensures CntRoom(bl, max, b) == 0
    decreases max - b
  {
    if b + 1 < max { NoRoom(bl, max, b + 1); }
  }

  /** A step uses up one unit of the room. */
  lemma RoomStep(bl: seq<nat>, c: nat, max: nat, b: nat)
    requires b < c < max < |bl| && bl[c] > 0 && bl[max] > 0
    ensures CntRoom(RepairAt(bl, c, max), max, b) == CntRoom(bl, max, b) - 1
  {
    hide CntRoom;
    var bl1 := bl[c := bl[c] - 1];
    var bl2 := bl1[c + 1 := bl1[c + 1] + 2];
    RoomUpdate(bl, max, b, c, -1);
    RoomUpdate(bl1, max, b, c + 1, 2);
    RoomUpdate(bl2, max, b, max, -1);
    assert Pow2(max - c) == 2 * Pow2(max - (c + 1));
    assert Pow2(0) == 1;
  }

  /** Main lemma: the short codes stay as they are if the longer ones can take in the excess. */
  lemma {:induction false} ShortCodesStay(bl: seq<nat>, max: nat, excess: nat, total: nat, b: nat)
    requires Overfull(bl, max, excess, total) && b < max && CntRoom(bl, max, b) >= excess
    ensures forall l :: 0 <= l <= b ==> RepairAll(bl, max, excess)[l] == bl[l]
    decreases excess
  {
    hide CntKraft, CntTotal, CntRoom;
    if excess > 0 {
      var c := LongestAboveRoom(bl, max, excess, total, b);
      RepairAllStep(bl, c, max, excess, total);
      RepairStep(bl, c, max, excess, total);
      RoomStep(bl, c, max, b);
      ShortCodesStay(RepairAt(bl, c, max), max, excess - 1, total, b);
    }
  }

  lemma LongestAboveRoom(bl: seq<nat>, max: nat, excess: nat, total: nat, b: nat) returns (c: nat)
    requires Overfull(bl, max, excess, total) && b < max && CntRoom(bl, max, b) >= excess > 0
    ensures b < c < max && bl[c] > 0 && forall l :: c < l < max ==> bl[l] == 0
  {
    hide CntKraft, CntTotal, CntRoom;
    c := LongestUpTo(bl, max - 1);
    if c <= b { NoRoom(bl, max, b); }
  }

  /** The length of the longest code below the limit. */
  method FindShorter(blCount: array<nat>, maxLength: nat, ghost excess: nat, ghost total: nat) returns (bits: nat)
    requires Overfull(blCount[..], maxLength, excess, total)
    ensures 1 <= bits < maxLength && blCount[bits] > 0
    ensures forall l :: bits < l < maxLength ==> blCount[l] == 0
  {
    ghost var bl := blCount[..];
    ShorterExists(bl, maxLength, excess, total);
    ghost var s :| 1 <= s < maxLength && bl[s] > 0;
    hide CntKraft, CntTotal;
    bits := maxLength - 1;
    while blCount[bits] == 0
      invariant s <= bits < maxLength && blCount[s] > 0
      invariant forall l :: bits < l < maxLength ==> blCount[l] == 0
      decreases bits
    {
      bits := bits - 1;
    }
  }

  lemma NothingToRepair(bl: seq<nat>, max: nat)
    ensures RepairAll(bl, max, 0) == bl
  {
  }

  /** The repair loop: it terminates, keeps the number of codes and ends with a Kraft sum of
      exactly one.  A code of the greatest length remains. */
  method Repair(blCount: array<nat>, maxLength: nat, overflow0: nat, ghost total: nat)
    requires overflow0 > 0 && overflow0 % 2 == 0
    requires Overfull(blCount[..], maxLength, overflow0 / 2, total)
    modifies blCount
    ensures Overfull(blCount[..], maxLength, 0, total) && blCount[maxLength] > 0
    ensures blCount[..] == RepairAll(old(blCount[..]), maxLength, overflow0 / 2)
  {
    hide RepairAll;
    var overflow: int := overflow0;
    ghost var bl0: seq<nat> := blCount[..];
    while true
      invariant overflow > 0 && overflow % 2 == 0
      invariant Overfull(blCount[..], maxLength, overflow / 2, total)
      invariant RepairAll(bl0, maxLength, overflow0 / 2) == RepairAll(blCount[..], maxLength, overflow / 2)
      decreases overflow
    {
      ghost var bl: seq<nat> := blCount[..];
      var bits := FindShorter(blCount, maxLength, overflow / 2, total);
      RepairStep(bl, bits, maxLength, overflow / 2, total);
      RepairAllStep(bl, bits, maxLength, overflow / 2, total);
      hide CntKraft, CntTotal;
      blCount[bits] := blCount[bits] - 1;
      blCount[bits + 1] := blCount[bits + 1] + 2;
      blCount[maxLength] := blCount[maxLength] - 1;
      assert blCount[..] == RepairAt(bl, bits, maxLength);
      overflow := overflow - 2;
      if overflow <= 0 {
        NothingToRepair(blCount[..], maxLength);
        return;
      }
    }
  }
}
