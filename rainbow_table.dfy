/**
 * The library's plaintext generator: the prefix and suffix lists, the
 * graphemes, and how many graphemes go into one plaintext; its size, its
 * index range and its (unfinished) index lookup.
 */
module RainbowTable {
  import opened Seqs
  import opened Combinatorics
  import opened Graphemes

  /** The grapheme counts for plaintext lengths min..max over graphemes of `graphemeMax` characters. */
  function ValidatePermutationBounds(min: nat, max: nat, graphemeMax: nat): (r: (nat, nat))
    requires graphemeMax > 0
    requires max >= min && min % graphemeMax == 0 && max % graphemeMax == 0
    ensures r.0 <= r.1
    ensures r.0 * graphemeMax == min && r.1 * graphemeMax == max
  {
    (min / graphemeMax, max / graphemeMax)
  }

  /** `take_str_slice`: each borrowed string copied into an owned one. */
  function TakeStrSlice(s: seq<string>): (r: seq<string>)
    ensures r == s
  {
    if s == [] then [] else [s[0]] + TakeStrSlice(s[1..])
  }

  datatype PlaintextGenerator = PlaintextGenerator(
    prefixList: seq<string>,
    suffixList: seq<string>,
    graphemes: seq<string>,
    graphemesPerStr: nat,
    itemMaxLen: nat)

  /** `PlaintextGenerator::new`. */
  function New(prefixList: seq<string>, suffixList: seq<string>, charset: string,
               graphemeMaxLen: nat, graphemeFilter: string -> bool, itemMaxLen: nat): (g: PlaintextGenerator)
    requires graphemeMaxLen >= 1
    requires itemMaxLen % graphemeMaxLen == 0
    ensures g.prefixList == prefixList && g.suffixList == suffixList
    ensures g.graphemes == BuildGraphemes(charset, graphemeMaxLen, graphemeFilter)
    ensures forall x :: x in g.graphemes <==> |x| <= graphemeMaxLen && Over(x, charset) && graphemeFilter(x)
    ensures NoDuplicates(g.graphemes)
    ensures g.graphemesPerStr * graphemeMaxLen == itemMaxLen && g.itemMaxLen == itemMaxLen
  {
    var (permutedMinLen, permutedMaxLen) := ValidatePermutationBounds(0, itemMaxLen, graphemeMaxLen);
    GraphemesMember(charset, graphemeMaxLen, graphemeFilter);
    GraphemesNoDuplicates(charset, graphemeMaxLen, graphemeFilter);
    PlaintextGenerator(
      TakeStrSlice(prefixList),
      TakeStrSlice(suffixList),
      BuildGraphemes(charset, graphemeMaxLen, graphemeFilter),
      permutedMaxLen - permutedMinLen,
      itemMaxLen)
  }

  /** `len()`: prefixes times suffixes times graphemes to the power of graphemes per plaintext. */
  function Len(g: PlaintextGenerator): nat
  {
    |g.prefixList| * |g.suffixList| * Pow(|g.graphemes|, g.graphemesPerStr)
  }

  /** `len()` counts the (prefix, grapheme tuple, suffix) triples when tuples may reuse a grapheme. */
  lemma LenIsTupleCount(g: PlaintextGenerator)
    ensures Len(g) == |g.prefixList| * |g.suffixList| * |CartesianPower(g.graphemes, g.graphemesPerStr)|
  {
    CartesianPowerCount(g.graphemes, g.graphemesPerStr);
  }

  const U64Limit: nat := 0x1_0000_0000_0000_0000

  /** A half-open range `start..end` of indices. */
  datatype IndexRange = IndexRange(start: nat, end: nat) {
    predicate Contains(i: nat) { start <= i < end }
  }

  /** `range()`: the indices `0..len()`, as `u64`. */
  function Range(g: PlaintextGenerator): (r: IndexRange)
    requires Len(g) < U64Limit
    ensures r.start == 0 && r.end == Len(g)
    ensures forall i: nat :: r.Contains(i) <==> i < Len(g)
  {
    IndexRange(0, Len(g))
  }

  /** `get(i)`: unfinished; it returns the empty string whatever the index. */
  function Get(g: PlaintextGenerator, i: nat): (s: string)
    requires i < U64Limit
    ensures s == ""
  {
    ""
  }
}
