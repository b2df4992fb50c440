/** Kraft's inequality for prefix codes given as bit strings, and what it means for code lengths
    that are optimal among all that satisfy it. */
module PrefixCodes {
  import opened Bits
  import opened Sums
  import opened Huffman

  /** No word of `s` is a prefix of another one. */
  ghost predicate PrefixCode(s: set<nat>, words: seq<seq<bool>>) {
    && (forall i :: i in s ==> i < |words|)
    && forall i, j :: i in s && j in s && i != j ==> !(words[i] <= words[j])
  }

  ghost function WordLens(words: seq<seq<bool>>): (r: seq<nat>)
    ensures |r| == |words|
  {
    seq(|words|, i requires 0 <= i < |words| => |words[i]|)
  }

  ghost function Tails(words: seq<seq<bool>>): (r: seq<seq<bool>>)
    ensures |r| == |words|
  {
    seq(|words|, i requires 0 <= i < |words| => if words[i] == [] then [] else words[i][1..])
  }

  /** Members whose word starts with bit b. */
  ghost function StartingWith(s: set<nat>, words: seq<seq<bool>>, b: bool): set<nat> {
    set i | i in s && i < |words| && words[i] != [] && words[i][0] == b
  }

  lemma SamePrefix(u: seq<bool>, v: seq<bool>)
    requires u != [] && v != [] && u[0] == v[0]
    ensures u <= v <==> u[1..] <= v[1..]
  {
    if u[1..] <= v[1..] {
      assert u == [u[0]] + u[1..] && v == [u[0]] + v[1..];
    }
  }

  /** The words starting with one bit, without that bit, are a prefix code again. */
  lemma TailsPrefixCode(s: set<nat>, words: seq<seq<bool>>, b: bool)
    requires PrefixCode(s, words)
    ensures PrefixCode(StartingWith(s, words, b), Tails(words))
  {
    var s' := StartingWith(s, words, b);
    forall i, j | i in s' && j in s' && i != j ensures !(Tails(words)[i] <= Tails(words)[j]) {
      SamePrefix(words[i], words[j]);
    }
  }

  /** Kraft's inequality. */
  lemma {:induction false} KraftInequality(s: set<nat>, words: seq<seq<bool>>, m: nat)
    requires PrefixCode(s, words) && forall i :: i in s ==> |words[i]| <= m
    ensures KraftOk(s, WordLens(words), m)
    decreases m
  {
    hide Sum, KraftOk;
    if e :| e in s && words[e] == [] {
      OneWord(s, words, e, m);
    } else if s == {} {
      NoWord(words, m);
    } else {
      var x :| x in s;
      assert words[x] != [] && m >= 1;
      TailsPrefixCode(s, words, false);
      TailsPrefixCode(s, words, true);
      KraftInequality(StartingWith(s, words, false), Tails(words), m - 1);
      KraftInequality(StartingWith(s, words, true), Tails(words), m - 1);
      KraftJoins(s, words, m);
    }
  }

  /** The empty word is a prefix of every other one. */
  lemma OneWord(s: set<nat>, words: seq<seq<bool>>, e: nat, m: nat)
    requires PrefixCode(s, words) && e in s && words[e] == []
    ensures KraftOk(s, WordLens(words), m)
  {
    hide Sum;
    forall i | i in s ensures i == e {
      assert words[e] <= words[i];
    }
    assert s == {e};
    SumSingle(e, Shares(WordLens(words), m));
  }

  lemma NoWord(words: seq<seq<bool>>, m: nat)
    ensures KraftOk({}, WordLens(words), m)
  {
    hide Sum;
    SumEmpty(Shares(WordLens(words), m));
  }

  /** Each half of the words takes at most half of the code space. */
  lemma KraftJoins(s: set<nat>, words: seq<seq<bool>>, m: nat)
    requires m >= 1 && forall i :: i in s ==> i < |words| && words[i] != [] && |words[i]| <= m
    requires KraftOk(StartingWith(s, words, false), WordLens(Tails(words)), m - 1)
    requires KraftOk(StartingWith(s, words, true), WordLens(Tails(words)), m - 1)
    ensures KraftOk(s, WordLens(words), m)
  {
    hide Sum;
    var lens, tails := WordLens(words), Tails(words);
    var s0, s1 := StartingWith(s, words, false), StartingWith(s, words, true);
    SumSplit(s, s0, s1, Shares(lens, m));
    SumEq(s0, Shares(lens, m), s0, Shares(WordLens(tails), m - 1));
    SumEq(s1, Shares(lens, m), s1, Shares(WordLens(tails), m - 1));
    assert Pow2(m) == 2 * Pow2(m - 1);
  }

  /** No code lengths that leave room for a prefix code cost less on these frequencies. */
  ghost predicate OptimalLens(leaves: set<nat>, f: seq<nat>, lens: seq<nat>) {
    |f| == |lens| &&
    forall lens': seq<nat>, m: nat :: |lens'| == |f| && KraftOk(leaves, lens', m) ==> Cost(leaves, f, lens) <= Cost(leaves, f, lens')
  }

  /** No prefix code for the same symbols, of whatever words, costs less on these frequencies. */
  ghost predicate BestCode(leaves: set<nat>, f: seq<nat>, lens: seq<nat>) {
    |f| == |lens| &&
    forall words: seq<seq<bool>> :: |words| == |f| && PrefixCode(leaves, words) ==> Cost(leaves, f, lens) <= Cost(leaves, f, WordLens(words))
  }

  ghost function Longest(words: seq<seq<bool>>): nat {
    if words == [] then 0
    else
      var m, w := Longest(words[..|words| - 1]), words[|words| - 1];
      if |w| > m then |w| else m
  }

  lemma {:induction false} LongestBounds(words: seq<seq<bool>>, i: nat)
    requires i < |words|
    ensures |words[i]| <= Longest(words)
  {
    if i < |words| - 1 { LongestBounds(words[..|words| - 1], i); }
  }

  /** Optimal lengths cost no more than any prefix code for the same symbols. */
  lemma BeatsPrefixCodes(leaves: set<nat>, f: seq<nat>, lens: seq<nat>)
    requires OptimalLens(leaves, f, lens)
    ensures BestCode(leaves, f, lens)
  {
    hide Sum, Products, PrefixCode;
    forall words: seq<seq<bool>> | |words| == |f| && PrefixCode(leaves, words) ensures Cost(leaves, f, lens) <= Cost(leaves, f, WordLens(words)) {
      PrefixMembers(leaves, words);
      forall i | i in leaves ensures |words[i]| <= Longest(words) { LongestBounds(words, i); }
      KraftInequality(leaves, words, Longest(words));
    }
  }

  lemma PrefixMembers(s: set<nat>, words: seq<seq<bool>>)
    requires PrefixCode(s, words)
    ensures forall i :: i in s ==> i < |words|
  {
  }
}
