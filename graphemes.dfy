/**
 * The grapheme builder: every string of at most `graphemeSize` characters of
 * the charset that the filter accepts, each once, shortest first. It is built
 * the way the source builds it: for each length n, every character repeated
 * n times, the n-permutations of that list, `unique()`, then the filter.
 */
module Graphemes {
  import opened Seqs
  import opened Combinatorics
  import opened Itertools

  /** Every character of `s` is one of `charset`. */
  predicate Over(s: string, charset: string)
  {
    forall i :: 0 <= i < |s| ==> s[i] in charset
  }

  predicate NotLonger(a: string, b: string)
  {
    |a| <= |b|
  }

  function Repeat(c: char, n: nat): string
  {
    seq(n, _ => c)
  }

  /** `charset.flat_map(|m| repeat(m).take(n))`: each character n times, in charset order. */
  function RepeatEach(charset: string, n: nat): string
  {
    Flatten(seq(|charset|, i requires 0 <= i < |charset| => Repeat(charset[i], n)))
  }

  /** The strings of exactly length n: `permutations(n)` of `RepeatEach`, then `unique()`. */
  function Level(charset: string, n: nat): seq<string>
  {
    Unique(Permutations(RepeatEach(charset, n), n))
  }

  /** `(0..g + 1).flat_map(Level)`: the levels 0 to g, one after another. */
  function Levels(charset: string, g: nat): seq<string>
  {
    if g == 0 then Level(charset, 0) else Levels(charset, g - 1) + Level(charset, g)
  }

  /** `build_graphemes(charset, grapheme_size, filter)`. */
  function BuildGraphemes(charset: string, graphemeSize: nat, filter: string -> bool): seq<string>
  {
    Filter(filter, Levels(charset, graphemeSize))
  }

  // ---------------------------------------------------------------------------

  lemma {:induction false} RepeatCount(c: char, n: nat, d: char)
    ensures multiset(Repeat(c, n))[d] == if d == c then n else 0
  {
    if n > 0 {
      assert Repeat(c, n) == Repeat(c, n - 1) + [c];
      RepeatCount(c, n - 1, d);
    }
  }

  /** `RepeatEach` is the first character's run followed by the rest's. */
  lemma RepeatEachCons(charset: string, n: nat)
    requires charset != []
    ensures RepeatEach(charset, n) == Repeat(charset[0], n) + RepeatEach(charset[1..], n)
  {
    var runs := seq(|charset|, i requires 0 <= i < |charset| => Repeat(charset[i], n));
    assert runs[1..] == seq(|charset[1..]|, i requires 0 <= i < |charset[1..]| => Repeat(charset[1..][i], n));
  }

  lemma {:induction false} RepeatEachCount(charset: string, n: nat, c: char)
    ensures c in charset ==> multiset(RepeatEach(charset, n))[c] >= n
    ensures c !in charset ==> multiset(RepeatEach(charset, n))[c] == 0
  {
    if charset != [] {
      assert charset == [charset[0]] + charset[1..];
      RepeatEachCons(charset, n);
      RepeatCount(charset[0], n, c);
      RepeatEachCount(charset[1..], n, c);
    }
  }

  lemma {:induction false} CountAtMostLength(s: string, c: char)
    ensures multiset(s)[c] <= |s|
  {
    if s != [] {
      assert s == [s[0]] + s[1..];
      CountAtMostLength(s[1..], c);
    }
  }

  /** Level n holds exactly the length-n strings over the charset, each once. */
  lemma LevelSpec(charset: string, n: nat)
    ensures forall x :: x in Level(charset, n) <==> |x| == n && Over(x, charset)
    ensures NoDuplicates(Level(charset, n))
  {
    var items := RepeatEach(charset, n);
    UniqueSpec(Permutations(items, n));
    forall x | x in Level(charset, n) ensures |x| == n && Over(x, charset) {
      PermutationsSound(items, n, x);
      forall i | 0 <= i < |x| ensures x[i] in charset {
        assert x[i] in multiset(x);
        RepeatEachCount(charset, n, x[i]);
      }
    }
    forall x | |x| == n && Over(x, charset) ensures x in Level(charset, n) {
      forall c ensures multiset(x)[c] <= multiset(items)[c] {
        RepeatEachCount(charset, n, c);
        CountAtMostLength(x, c);
        if c !in charset {
          assert c !in x;
        }
      }
      PermutationsComplete(items, x);
    }
  }

  /** Level n holds strings of length n, each once. */
  lemma LevelShape(charset: string, n: nat)
    ensures forall x :: x in Level(charset, n) ==> |x| == n
    ensures NoDuplicates(Level(charset, n))
  {
    LevelSpec(charset, n);
  }

  /** Levels 0 to g hold exactly the strings of at most g characters over the charset. */
  lemma {:induction false} LevelsMember(charset: string, g: nat)
    ensures forall x :: x in Levels(charset, g) <==> |x| <= g && Over(x, charset)
  {
    LevelSpec(charset, g);
    if g > 0 {
      LevelsMember(charset, g - 1);
    }
  }

  lemma {:induction false} LevelsLength(charset: string, g: nat)
    ensures forall x :: x in Levels(charset, g) ==> |x| <= g
  {
    LevelsMember(charset, g);
  }

  /** Levels 0 to g hold each string once. */
  lemma {:induction false} LevelsNoDuplicates(charset: string, g: nat)
    ensures NoDuplicates(Levels(charset, g))
  {
    LevelShape(charset, g);
    if g > 0 {
      LevelsNoDuplicates(charset, g - 1);
      LevelsLength(charset, g - 1);
      NoDuplicatesAppend(Levels(charset, g - 1), Level(charset, g));
    }
  }

  /** Levels 0 to g come shorter before longer. */
  lemma {:induction false} LevelsOrdered(charset: string, g: nat)
    ensures Pairwise(NotLonger, Levels(charset, g))
  {
    var here := Level(charset, g);
    LevelShape(charset, g);
    forall i, j | 0 <= i < j < |here| ensures NotLonger(here[i], here[j]) {
      assert here[i] in here && here[j] in here;
    }
    if g > 0 {
      var below := Levels(charset, g - 1);
      LevelsOrdered(charset, g - 1);
      LevelsLength(charset, g - 1);
      forall x, y | x in below && y in here ensures NotLonger(x, y) { }
      PairwiseAppend(NotLonger, below, here);
    }
  }

  // ---------------------------------------------------------------------------
  // What build_graphemes promises
  // ---------------------------------------------------------------------------

  /**
   * Soundness and completeness: a string is a grapheme exactly when it has at
   * most `graphemeSize` characters, all from the charset, and passes the filter.
   */
  lemma GraphemesMember(charset: string, graphemeSize: nat, filter: string -> bool)
    ensures forall x :: x in BuildGraphemes(charset, graphemeSize, filter) <==>
                          |x| <= graphemeSize && Over(x, charset) && filter(x)
  {
    LevelsMember(charset, graphemeSize);
  }

  /** No grapheme appears twice, even when the charset repeats a character. */
  lemma GraphemesNoDuplicates(charset: string, graphemeSize: nat, filter: string -> bool)
    ensures NoDuplicates(BuildGraphemes(charset, graphemeSize, filter))
  {
    LevelsNoDuplicates(charset, graphemeSize);
    FilterNoDuplicates(filter, Levels(charset, graphemeSize));
  }

  /** The graphemes come grouped by length: all empty ones, then length 1, and so on. */
  lemma GraphemesByLength(charset: string, graphemeSize: nat, filter: string -> bool)
    ensures var r := BuildGraphemes(charset, graphemeSize, filter);
            forall i, j :: 0 <= i <= j < |r| ==> |r[i]| <= |r[j]|
  {
    LevelsOrdered(charset, graphemeSize);
    FilterPairwise(filter, NotLonger, Levels(charset, graphemeSize));
  }

  /** The empty string is a grapheme exactly when the filter accepts it (level 0 is one empty tuple). */
  lemma EmptyGraphemeIff(charset: string, graphemeSize: nat, filter: string -> bool)
    ensures "" in BuildGraphemes(charset, graphemeSize, filter) <==> filter("")
  {
    GraphemesMember(charset, graphemeSize, filter);
  }
}
