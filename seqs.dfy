/** Sequence facts shared by the grapheme builder, the enumerator and the pipeline. */
module Seqs {

  /** Concatenation of a sequence of sequences, left to right (`concat`). */
  function Flatten<T>(ss: seq<seq<T>>): seq<T>
  {
    if ss == [] then [] else ss[0] + Flatten(ss[1..])
  }

  lemma {:induction false} FlattenAppend<T>(a: seq<seq<T>>, b: seq<seq<T>>)
    ensures Flatten(a + b) == Flatten(a) + Flatten(b)
  {
    if a == [] {
      assert a + b == b;
    } else {
      assert (a + b)[1..] == a[1..] + b;
      FlattenAppend(a[1..], b);
    }
  }

  /** `R` holds of every pair of elements taken in order. */
  predicate Pairwise<T>(R: (T, T) -> bool, s: seq<T>)
  {
    forall i, j :: 0 <= i < j < |s| ==> R(s[i], s[j])
  }

  predicate NoDuplicates<T(==)>(s: seq<T>)
  {
    forall i, j :: 0 <= i < j < |s| ==> s[i] != s[j]
  }

  lemma PairwiseCons<T>(R: (T, T) -> bool, x: T, t: seq<T>)
    requires forall y :: y in t ==> R(x, y)
    requires Pairwise(R, t)
    ensures Pairwise(R, [x] + t)
  {
    var s := [x] + t;
    forall i, j | 0 <= i < j < |s| ensures R(s[i], s[j]) {
      assert s[j] == t[j - 1];
      if i > 0 {
        assert s[i] == t[i - 1];
      }
    }
  }

  lemma PairwiseAppend<T>(R: (T, T) -> bool, a: seq<T>, b: seq<T>)
    requires Pairwise(R, a) && Pairwise(R, b)
    requires forall x, y :: x in a && y in b ==> R(x, y)
    ensures Pairwise(R, a + b)
  {
    var s := a + b;
    forall i, j | 0 <= i < j < |s| ensures R(s[i], s[j]) {
      if j < |a| {
        assert s[i] == a[i] && s[j] == a[j];
      } else if i < |a| {
        assert s[i] == a[i] && s[j] == b[j - |a|];
      } else {
        assert s[i] == b[i - |a|] && s[j] == b[j - |a|];
      }
    }
  }

  lemma NoDuplicatesCons<T>(x: T, t: seq<T>)
    requires x !in t && NoDuplicates(t)
    ensures NoDuplicates([x] + t)
  {
    var s := [x] + t;
    forall i, j | 0 <= i < j < |s| ensures s[i] != s[j] {
      assert s[j] == t[j - 1];
      if i > 0 {
        assert s[i] == t[i - 1];
      }
    }
  }

  lemma NoDuplicatesAppend<T>(a: seq<T>, b: seq<T>)
    requires NoDuplicates(a) && NoDuplicates(b)
    requires forall x :: x in a ==> x !in b
    ensures NoDuplicates(a + b)
  {
    var s := a + b;
    forall i, j | 0 <= i < j < |s| ensures s[i] != s[j] {
      if j < |a| {
        assert s[i] == a[i] && s[j] == a[j];
      } else if i < |a| {
        assert s[i] == a[i] && s[j] == b[j - |a|];
        assert a[i] in a;
      } else {
        assert s[i] == b[i - |a|] && s[j] == b[j - |a|];
      }
    }
  }

  /** An element of a duplicate-free sequence occurs in it at most once. */
  lemma {:induction false} NoDuplicatesCount<T>(s: seq<T>, x: T)
    requires NoDuplicates(s)
    ensures multiset(s)[x] <= 1
  {
    if s != [] {
      assert s == [s[0]] + s[1..];
      assert NoDuplicates(s[1..]) by {
        forall i, j | 0 <= i < j < |s[1..]| ensures s[1..][i] != s[1..][j] {
          assert s[1..][i] == s[i + 1] && s[1..][j] == s[j + 1];
        }
      }
      NoDuplicatesCount(s[1..], x);
      if s[0] == x {
        assert x !in s[1..] by {
          forall k | 0 <= k < |s[1..]| ensures s[1..][k] != x {
            assert s[1..][k] == s[k + 1];
          }
        }
      }
    }
  }

  /** The elements of `s` that pass `f`, in order (`filter` / `filter_map`). */
  function Filter<T>(f: T -> bool, s: seq<T>): (r: seq<T>)
    ensures forall i :: 0 <= i < |r| ==> r[i] in s && f(r[i])
    ensures forall i :: 0 <= i < |s| && f(s[i]) ==> s[i] in r
  {
    if s == [] then []
    else
      assert s == [s[0]] + s[1..];
      (if f(s[0]) then [s[0]] else []) + Filter(f, s[1..])
  }

  /** Filtering keeps every ordered pair relation of the input. */
  lemma {:induction false} FilterPairwise<T>(f: T -> bool, R: (T, T) -> bool, s: seq<T>)
    requires Pairwise(R, s)
    ensures Pairwise(R, Filter(f, s))
  {
    if s != [] {
      var t := s[1..];
      assert Pairwise(R, t) by {
        forall i, j | 0 <= i < j < |t| ensures R(t[i], t[j]) {
          assert t[i] == s[i + 1] && t[j] == s[j + 1];
        }
      }
      FilterPairwise(f, R, t);
      if f(s[0]) {
        forall y | y in Filter(f, t) ensures R(s[0], y) {
          var m :| 0 <= m < |Filter(f, t)| && Filter(f, t)[m] == y;
          var k :| 0 <= k < |t| && t[k] == y;
          assert s[k + 1] == y;
        }
        PairwiseCons(R, s[0], Filter(f, t));
      }
    }
  }

  /** Filtering keeps a sequence free of duplicates. */
  lemma {:induction false} FilterNoDuplicates<T>(f: T -> bool, s: seq<T>)
    requires NoDuplicates(s)
    ensures NoDuplicates(Filter(f, s))
  {
    if s != [] {
      var t := s[1..];
      assert NoDuplicates(t) by {
        forall i, j | 0 <= i < j < |t| ensures t[i] != t[j] {
          assert t[i] == s[i + 1] && t[j] == s[j + 1];
        }
      }
      FilterNoDuplicates(f, t);
      if f(s[0]) {
        assert s[0] !in t by {
          forall k | 0 <= k < |t| ensures t[k] != s[0] {
            assert t[k] == s[k + 1];
          }
        }
        assert s[0] !in Filter(f, t) by {
          forall m | 0 <= m < |Filter(f, t)| ensures Filter(f, t)[m] != s[0] {
            assert Filter(f, t)[m] in t;
          }
        }
        NoDuplicatesCons(s[0], Filter(f, t));
      }
    }
  }
}
