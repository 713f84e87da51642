/** The iterator adaptors the enumerator is built from, on finite sequences. */
module Itertools {
  import opened Wrappers
  import opened Seqs

  /**
   * `unique()`: the first occurrence of every element, in order, skipping the
   * elements already in `seen`.
   */
  function UniqueFrom<T(==)>(s: seq<T>, seen: set<T>): seq<T>
  {
    if s == [] then []
    else if s[0] in seen then UniqueFrom(s[1..], seen)
    else [s[0]] + UniqueFrom(s[1..], seen + {s[0]})
  }

  function Unique<T(==)>(s: seq<T>): seq<T>
  {
    UniqueFrom(s, {})
  }

  /** `UniqueFrom` keeps exactly the unseen elements, each once. */
  lemma {:induction false} UniqueFromSpec<T>(s: seq<T>, seen: set<T>)
    ensures forall x :: x in UniqueFrom(s, seen) <==> x in s && x !in seen
    ensures NoDuplicates(UniqueFrom(s, seen))
  {
    if s != [] {
      assert s == [s[0]] + s[1..];
      if s[0] in seen {
        UniqueFromSpec(s[1..], seen);
      } else {
        UniqueFromSpec(s[1..], seen + {s[0]});
        NoDuplicatesCons(s[0], UniqueFrom(s[1..], seen + {s[0]}));
      }
    }
  }

  /** `unique()` keeps every element of its input and no element twice. */
  lemma UniqueSpec<T>(s: seq<T>)
    ensures forall x :: x in Unique(s) <==> x in s
    ensures NoDuplicates(Unique(s))
  {
    UniqueFromSpec(s, {});
  }

  /** `xs.cartesian_product(ys)`: every pair, the element of `xs` varying slowest. */
  function Product<A, B>(xs: seq<A>, ys: seq<B>): (r: seq<(A, B)>)
    ensures |r| == |xs| * |ys|
  {
    if xs == [] then []
    else seq(|ys|, j requires 0 <= j < |ys| => (xs[0], ys[j])) + Product(xs[1..], ys)
  }

  /** Pair number `i·|ys| + j` of the product is `(xs[i], ys[j])`. */
  lemma {:induction false} ProductAt<A, B>(xs: seq<A>, ys: seq<B>, i: nat, j: nat)
    requires i < |xs| && j < |ys|
    ensures i * |ys| + j < |xs| * |ys|
    ensures Product(xs, ys)[i * |ys| + j] == (xs[i], ys[j])
  {
    ProductIndexBound(|xs|, |ys|, i, j);
    if i > 0 {
      ProductAt(xs[1..], ys, i - 1, j);
      assert i * |ys| + j == |ys| + ((i - 1) * |ys| + j);
    }
  }

  lemma ProductIndexBound(n: nat, m: nat, i: nat, j: nat)
    requires i < n && j < m
    ensures i * m + j < n * m
  {
    assert (i + 1) * m <= n * m;
  }

  /** Every pair drawn from `xs` and `ys` is in the product. */
  lemma {:induction false} ProductComplete<A, B>(xs: seq<A>, ys: seq<B>, x: A, y: B)
    requires x in xs && y in ys
    ensures (x, y) in Product(xs, ys)
  {
    if xs[0] == x {
      var j :| 0 <= j < |ys| && ys[j] == y;
      assert Product(xs, ys)[j] == (x, y);
    } else {
      ProductComplete(xs[1..], ys, x, y);
    }
  }

  /** Every pair of the product comes from `xs` and `ys`. */
  lemma {:induction false} ProductMember<A, B>(xs: seq<A>, ys: seq<B>, k: nat)
    requires k < |Product(xs, ys)|
    ensures Product(xs, ys)[k].0 in xs && Product(xs, ys)[k].1 in ys
  {
    if k >= |ys| {
      ProductMember(xs[1..], ys, k - |ys|);
    }
  }

  /** Duplicate-free factors give a duplicate-free product: every pair is drawn once. */
  lemma {:induction false} ProductNoDuplicates<A, B>(xs: seq<A>, ys: seq<B>)
    requires NoDuplicates(xs) && NoDuplicates(ys)
    ensures NoDuplicates(Product(xs, ys))
  {
    if xs != [] {
      var head := seq(|ys|, j requires 0 <= j < |ys| => (xs[0], ys[j]));
      var tail := xs[1..];
      assert NoDuplicates(head) by {
        forall a, b | 0 <= a < b < |head| ensures head[a] != head[b] {
          assert head[a].1 == ys[a] && head[b].1 == ys[b];
        }
      }
      assert NoDuplicates(tail) by {
        forall a, b | 0 <= a < b < |tail| ensures tail[a] != tail[b] {
          assert tail[a] == xs[a + 1] && tail[b] == xs[b + 1];
        }
      }
      ProductNoDuplicates(tail, ys);
      forall q | q in head ensures q !in Product(tail, ys) {
        if q in Product(tail, ys) {
          var m :| 0 <= m < |Product(tail, ys)| && Product(tail, ys)[m] == q;
          ProductMember(tail, ys, m);
          assert false;
        }
      }
      NoDuplicatesAppend(head, Product(tail, ys));
    }
  }

  /**
   * `chunks(n)`: consecutive pieces of `n` elements, the last one possibly
   * shorter, and no piece at all for an empty input.
   */
  function Chunks<T>(s: seq<T>, n: nat): (r: seq<seq<T>>)
    requires n > 0
    ensures Flatten(r) == s
    ensures forall m :: 0 <= m < |r| ==> 0 < |r[m]| <= n
    ensures forall m :: 0 <= m < |r| - 1 ==> |r[m]| == n
    decreases |s|
  {
    if s == [] then []
    else if |s| <= n then [s]
    else
      assert s == s[..n] + s[n..];
      [s[..n]] + Chunks(s[n..], n)
  }

  /** The first chunk is the first `n` elements, or all of them if fewer; `acc` is what came before. */
  lemma ChunksStep<T>(acc: seq<seq<T>>, s: seq<T>, n: nat, m: nat)
    requires n > 0 && s != [] && m == (if |s| < n then |s| else n)
    ensures acc + Chunks(s, n) == (acc + [s[..m]]) + Chunks(s[m..], n)
  {
    if |s| <= n {
      assert s[..|s|] == s;
      assert s[|s|..] == [];
    }
  }

  /** A sequence of at most `count·n` elements falls into at most `count` chunks of `n`. */
  lemma {:induction false} ChunksCount<T>(s: seq<T>, n: nat, count: nat)
    requires n > 0 && |s| <= count * n
    ensures |Chunks(s, n)| <= count
    decreases |s|
  {
    if |s| > n {
      assert count > 1;
      assert |s[n..]| <= (count - 1) * n;
      ChunksCount(s[n..], n, count - 1);
    } else if s != [] {
      assert count >= 1;
    }
  }

  /** `acc` folded with every element of `xs` in turn. */
  function FoldLeft<A, T>(f: (A, T) -> A, acc: A, xs: seq<T>): A
  {
    if xs == [] then acc else FoldLeft(f, f(acc, xs[0]), xs[1..])
  }

  /** `Iterator::reduce`: the first element folded with the others, or `None` for no elements. */
  function Reduce<T>(f: (T, T) -> T, xs: seq<T>): (r: Option<T>)
    ensures r.Some? <==> |xs| > 0
  {
    if xs == [] then None else Some(FoldLeft(f, xs[0], xs[1..]))
  }
}
