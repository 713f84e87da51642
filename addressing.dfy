/**
 * The index packing that `get` is meant to implement and does not yet: a
 * plaintext is addressed by (prefix index, suffix index, grapheme indices),
 * packed as a mixed-radix number whose least significant digit is the prefix
 * index (radix |prefixes|), then the suffix index (radix |suffixes|), then one
 * digit per grapheme position (radix |graphemes|). This is the design intent
 * stated in the comment on `get`, not the current behaviour of `get`.
 */
module Addressing {
  import opened Seqs
  import opened Combinatorics
  import opened RainbowTable

  datatype Address = Address(prefix: nat, suffix: nat, graphemes: seq<nat>)

  predicate Digits(ds: seq<nat>, base: nat)
  {
    forall m :: 0 <= m < |ds| ==> ds[m] < base
  }

  predicate ValidAddress(g: PlaintextGenerator, a: Address)
  {
    && a.prefix < |g.prefixList|
    && a.suffix < |g.suffixList|
    && |a.graphemes| == g.graphemesPerStr
    && Digits(a.graphemes, |g.graphemes|)
  }

  /** The number written by `ds`, least significant digit first. */
  function DigitsValue(ds: seq<nat>, base: nat): nat
  {
    if ds == [] then 0 else ds[0] + base * DigitsValue(ds[1..], base)
  }

  /** The k lowest digits of `x`, least significant first. */
  function ToDigits(x: nat, base: nat, k: nat): seq<nat>
    requires base > 0
    decreases k
  {
    if k == 0 then [] else [x % base] + ToDigits(x / base, base, k - 1)
  }

  /**
   * `a = pi + si·p_max`, then the grapheme digits above that, weighted by
   * p_max·s_max so that they start where the values of `a` end.
   */
  function Encode(g: PlaintextGenerator, a: Address): nat
  {
    a.prefix + |g.prefixList| * (a.suffix + |g.suffixList| * DigitsValue(a.graphemes, |g.graphemes|))
  }

  function Decode(g: PlaintextGenerator, i: nat): Address
    requires i < Len(g)
  {
    LenFactorsPositive(g, i);
    Unpack(i, |g.prefixList|, |g.suffixList|, |g.graphemes|, g.graphemesPerStr)
  }

  /** `i` split into a digit of radix `p`, a digit of radix `s` and k digits of radix `n`. */
  function Unpack(i: nat, p: nat, s: nat, n: nat, k: nat): Address
    requires p > 0 && s > 0 && (k > 0 ==> n > 0)
  {
    var rest: nat := i / p;
    var top: nat := rest / s;
    Address(i % p, rest % s, if k == 0 then [] else ToDigits(top, n, k))
  }

  /** The graphemes an address names, in order. */
  function GraphemeTuple(g: PlaintextGenerator, a: Address): seq<string>
    requires ValidAddress(g, a)
  {
    seq(|a.graphemes|, m requires 0 <= m < |a.graphemes| => g.graphemes[a.graphemes[m]])
  }

  // ---------------------------------------------------------------------------
  // Arithmetic
  // ---------------------------------------------------------------------------

  lemma LenFactorsPositive(g: PlaintextGenerator, i: nat)
    requires i < Len(g)
    ensures |g.prefixList| > 0 && |g.suffixList| > 0
    ensures g.graphemesPerStr > 0 ==> |g.graphemes| > 0
  {
    if g.graphemesPerStr > 0 && |g.graphemes| == 0 {
      assert Pow(0, g.graphemesPerStr) == 0;
    }
  }

  /** Digits below the radix write a number below radix^k. */
  lemma {:induction false} DigitsValueBound(ds: seq<nat>, base: nat)
    requires Digits(ds, base)
    ensures DigitsValue(ds, base) < Pow(base, |ds|)
  {
    if ds != [] {
      assert Digits(ds[1..], base) by {
        forall m | 0 <= m < |ds[1..]| ensures ds[1..][m] < base { assert ds[1..][m] == ds[m + 1]; }
      }
      DigitsValueBound(ds[1..], base);
      MixBound(ds[0], base, DigitsValue(ds[1..], base), Pow(base, |ds| - 1));
    }
  }

  /** Reading the digits of a number back gives the digits. */
  lemma {:induction false} DigitsRoundTrip(ds: seq<nat>, base: nat)
    requires base > 0 && Digits(ds, base)
    ensures ToDigits(DigitsValue(ds, base), base, |ds|) == ds
  {
    if ds != [] {
      assert Digits(ds[1..], base) by {
        forall m | 0 <= m < |ds[1..]| ensures ds[1..][m] < base { assert ds[1..][m] == ds[m + 1]; }
      }
      DivModUnique(DigitsValue(ds, base), base, DigitsValue(ds[1..], base), ds[0]);
      DigitsRoundTrip(ds[1..], base);
      assert ds == [ds[0]] + ds[1..];
    }
  }

  lemma DigitsCons(d: nat, ds: seq<nat>, base: nat)
    ensures Digits([d] + ds, base) <==> d < base && Digits(ds, base)
    ensures DigitsValue([d] + ds, base) == d + base * DigitsValue(ds, base)
  {
    var ds' := [d] + ds;
    assert ds'[1..] == ds;
    if Digits(ds', base) {
      assert ds'[0] == d;
      forall m | 0 <= m < |ds| ensures ds[m] < base { assert ds[m] == ds'[m + 1]; }
    }
    if d < base && Digits(ds, base) {
      forall m | 0 <= m < |ds'| ensures ds'[m] < base { if m > 0 { assert ds'[m] == ds[m - 1]; } }
    }
  }

  /** Writing the k lowest digits of a number below radix^k gives the number. */
  lemma {:induction false} ToDigitsRoundTrip(x: nat, base: nat, k: nat)
    requires base > 0 && x < Pow(base, k)
    ensures |ToDigits(x, base, k)| == k && Digits(ToDigits(x, base, k), base)
    ensures DigitsValue(ToDigits(x, base, k), base) == x
    decreases k
  {
    if k > 0 {
      var q, ds := x / base, ToDigits(x / base, base, k - 1);
      DivSplit(x, base, Pow(base, k - 1));
      ToDigitsRoundTrip(q, base, k - 1);
      DigitsCons(x % base, ds, base);
    }
  }

  // ---------------------------------------------------------------------------
  // The addressing laws
  // ---------------------------------------------------------------------------

  /** Every valid address packs to an index below `len()`, and unpacks back to itself. */
  lemma DecodeEncode(g: PlaintextGenerator, a: Address)
    requires ValidAddress(g, a)
    ensures Encode(g, a) < Len(g)
    ensures Decode(g, Encode(g, a)) == a
  {
    var p, s, n, k := |g.prefixList|, |g.suffixList|, |g.graphemes|, g.graphemesPerStr;
    var d := DigitsValue(a.graphemes, n);
    DigitsValueBound(a.graphemes, n);
    MixBound(a.suffix, s, d, Pow(n, k));
    var inner := a.suffix + s * d;
    MixBound(a.prefix, p, inner, s * Pow(n, k));
    assert p * (s * Pow(n, k)) == Len(g);
    var i := Encode(g, a);
    DivModUnique(i, p, inner, a.prefix);
    DivModUnique(inner, s, d, a.suffix);
    if k > 0 {
      DigitsRoundTrip(a.graphemes, n);
    }
  }

  /** Every index below `len()` unpacks to a valid address that packs back to the index. */
  lemma EncodeDecode(g: PlaintextGenerator, i: nat)
    requires i < Len(g)
    ensures ValidAddress(g, Decode(g, i))
    ensures Encode(g, Decode(g, i)) == i
  {
    LenFactorsPositive(g, i);
    var p, s, n, k := |g.prefixList|, |g.suffixList|, |g.graphemes|, g.graphemesPerStr;
    var m := Pow(n, k);
    assert Len(g) == p * (s * m);
    DivSplit(i, p, s * m);
    var rest := i / p;
    DivSplit(rest, s, m);
    if k > 0 {
      ToDigitsRoundTrip(rest / s, n, k);
    }
  }

  /** The grapheme tuple of a valid address is one of the tuples `len()` counts. */
  lemma AddressTupleInPower(g: PlaintextGenerator, a: Address)
    requires ValidAddress(g, a)
    ensures GraphemeTuple(g, a) in CartesianPower(g.graphemes, g.graphemesPerStr)
  {
    CartesianPowerMember(g.graphemes, g.graphemesPerStr, GraphemeTuple(g, a));
  }

  // ---------------------------------------------------------------------------
  // The second step of the comment, read literally
  // ---------------------------------------------------------------------------

  /** `i = a + G·s_max` with `a = pi + si·p_max`: the grapheme digits weighted by s_max alone. */
  function EncodeAsWritten(g: PlaintextGenerator, a: Address): nat
  {
    (a.prefix + |g.prefixList| * a.suffix) + DigitsValue(a.graphemes, |g.graphemes|) * |g.suffixList|
  }

  lemma {:induction false} ZerosValue(k: nat, base: nat)
    ensures base > 0 ==> Digits(seq(k, _ => 0), base)
    ensures DigitsValue(seq(k, _ => 0), base) == 0
  {
    if k > 0 {
      ZerosValue(k - 1, base);
      assert seq(k, _ => 0) == [0] + seq(k - 1, _ => 0);
      DigitsCons(0, seq(k - 1, _ => 0), base);
    }
  }

  /**
   * With two or more prefixes and graphemes and k >= 1, the literal formula
   * sends two distinct valid addresses to the same index |suffixes|: prefix
   * |suffixes| mod |prefixes| and suffix |suffixes| / |prefixes| with all
   * grapheme digits 0, and prefix 0 and suffix 0 with grapheme digits 1, 0, ….
   */
  lemma EncodeAsWrittenCollides(g: PlaintextGenerator)
    requires |g.prefixList| >= 2 && |g.suffixList| >= 1 && |g.graphemes| >= 2 && g.graphemesPerStr >= 1
    ensures var p, s, k := |g.prefixList|, |g.suffixList|, g.graphemesPerStr;
            var a1 := Address(s % p, s / p, seq(k, _ => 0));
            var a2 := Address(0, 0, [1] + seq(k - 1, _ => 0));
            && ValidAddress(g, a1) && ValidAddress(g, a2) && a1 != a2
            && EncodeAsWritten(g, a1) == s == EncodeAsWritten(g, a2)
  {
    var p, s, n, k := |g.prefixList|, |g.suffixList|, |g.graphemes|, g.graphemesPerStr;
    var a1 := Address(s % p, s / p, seq(k, _ => 0));
    var a2 := Address(0, 0, [1] + seq(k - 1, _ => 0));
    ZerosValue(k, n);
    ZerosValue(k - 1, n);
    DigitsCons(1, seq(k - 1, _ => 0), n);
    DivBelow(s, p);
    assert a1.graphemes[0] != a2.graphemes[0];
  }

  /** Dividing by 2 or more shrinks a positive number. */
  lemma DivBelow(s: nat, p: nat)
    requires s >= 1 && p >= 2
    ensures s / p < s && s % p + p * (s / p) == s
  {
    MulMonotone(s, 2, p);
    DivSplit(s, p, s);
  }
}
