/**
 * The two ways of drawing k-tuples from a list that the enumerator mixes up:
 * `Permutations` is itertools' `permutations(k)` (k distinct positions, in
 * lexicographic order of the positions), `CartesianPower` is the k-fold
 * Cartesian product of the list with itself (positions may repeat).
 */
module Combinatorics {
  import opened Seqs

  function Pow(b: nat, e: nat): nat
  {
    if e == 0 then 1 else b * Pow(b, e - 1)
  }

  /** n·(n−1)·…·(n−k+1): the number of ways to pick k distinct positions of n, in order. */
  function Falling(n: nat, k: nat): nat
  {
    if k == 0 then 1 else if n == 0 then 0 else n * Falling(n - 1, k - 1)
  }

  function RemoveAt<T>(s: seq<T>, i: nat): (r: seq<T>)
    requires i < |s|
    ensures |r| == |s| - 1
  {
    s[..i] + s[i + 1..]
  }

  lemma RemoveAtMultiset<T>(s: seq<T>, i: nat)
    requires i < |s|
    ensures multiset(RemoveAt(s, i)) + multiset{s[i]} == multiset(s)
  {
    assert s == s[..i] + [s[i]] + s[i + 1..];
  }

  /** Puts `x` in front of every tuple of `ps`. */
  function PrependAll<T>(x: T, ps: seq<seq<T>>): (r: seq<seq<T>>)
    ensures |r| == |ps|
    ensures forall m :: 0 <= m < |r| ==> r[m] == [x] + ps[m]
  {
    seq(|ps|, m requires 0 <= m < |ps| => [x] + ps[m])
  }

  lemma PrependAllMember<T>(x: T, ps: seq<seq<T>>, p: seq<T>)
    ensures p in PrependAll(x, ps) <==> |p| > 0 && p[0] == x && p[1..] in ps
  {
    var r := PrependAll(x, ps);
    if p in r {
      var m :| 0 <= m < |r| && r[m] == p;
      assert p[1..] == ps[m];
    }
    if |p| > 0 && p[0] == x && p[1..] in ps {
      var m :| 0 <= m < |ps| && ps[m] == p[1..];
      assert r[m] == p;
    }
  }

  // ---------------------------------------------------------------------------
  // k-permutations (itertools `permutations`)
  // ---------------------------------------------------------------------------

  /**
   * Every ordered choice of k distinct positions of `items`, as the tuple of
   * the elements there. Positions are chosen first to last, each in increasing
   * order, so equal elements at different positions give equal tuples.
   */
  function Permutations<T>(items: seq<T>, k: nat): seq<seq<T>>
    decreases k, |items| + 1
  {
    if k == 0 then [[]] else PermutationsFrom(items, k, 0)
  }

  /** The k-permutations whose first position is `i` or later. */
  function PermutationsFrom<T>(items: seq<T>, k: nat, i: nat): seq<seq<T>>
    requires 0 < k
    decreases k, |items| - i
  {
    if i >= |items| then []
    else PrependAll(items[i], Permutations(RemoveAt(items, i), k - 1)) + PermutationsFrom(items, k, i + 1)
  }

  /** `p` is a k-permutation whose first position is `j`. */
  predicate PicksFirst<T(==)>(items: seq<T>, k: nat, j: nat, p: seq<T>)
    requires 0 < k
  {
    j < |items| && |p| > 0 && p[0] == items[j] && p[1..] in Permutations(RemoveAt(items, j), k - 1)
  }

  lemma {:induction false} PermutationsFromMember<T>(items: seq<T>, k: nat, i: nat, p: seq<T>)
    requires 0 < k
    ensures p in PermutationsFrom(items, k, i) <==> exists j :: i <= j && PicksFirst(items, k, j, p)
    decreases |items| - i
  {
    if i < |items| {
      PermutationsFromMember(items, k, i + 1, p);
      PrependAllMember(items[i], Permutations(RemoveAt(items, i), k - 1), p);
      if p in PermutationsFrom(items, k, i) {
        if !PicksFirst(items, k, i, p) {
          var j :| i + 1 <= j && PicksFirst(items, k, j, p);
        }
      }
      if exists j :: i <= j && PicksFirst(items, k, j, p) {
        var j :| i <= j && PicksFirst(items, k, j, p);
        if j > i {
          assert i + 1 <= j && PicksFirst(items, k, j, p);
        }
      }
    }
  }

  /** A k-permutation has k elements and uses no element more often than `items` holds it. */
  lemma {:induction false} PermutationsSound<T>(items: seq<T>, k: nat, p: seq<T>)
    requires p in Permutations(items, k)
    ensures |p| == k
    ensures multiset(p) <= multiset(items)
    decreases k
  {
    if k > 0 {
      PermutationsFromMember(items, k, 0, p);
      var j :| 0 <= j && PicksFirst(items, k, j, p);
      PermutationsSound(RemoveAt(items, j), k - 1, p[1..]);
      RemoveAtMultiset(items, j);
      assert p == [items[j]] + p[1..];
      assert multiset(p) == multiset{items[j]} + multiset(p[1..]);
    }
  }

  /** Conversely, every tuple drawn without over-using an element is a permutation of its length. */
  lemma {:induction false} PermutationsComplete<T>(items: seq<T>, p: seq<T>)
    requires multiset(p) <= multiset(items)
    ensures p in Permutations(items, |p|)
    decreases |p|
  {
    if p != [] {
      assert p == [p[0]] + p[1..];
      assert multiset(p) == multiset{p[0]} + multiset(p[1..]);
      assert p[0] in multiset(items);
      var j :| 0 <= j < |items| && items[j] == p[0];
      RemoveAtMultiset(items, j);
      forall x ensures multiset(p[1..])[x] <= multiset(RemoveAt(items, j))[x] {
        assert multiset(p)[x] <= multiset(items)[x];
      }
      PermutationsComplete(RemoveAt(items, j), p[1..]);
      assert PicksFirst(items, |p|, j, p);
      PermutationsFromMember(items, |p|, 0, p);
    }
  }

  lemma {:induction false} PermutationsCount<T>(items: seq<T>, k: nat)
    ensures |Permutations(items, k)| == Falling(|items|, k)
    decreases k, |items| + 1
  {
    if k > 0 {
      PermutationsFromCount(items, k, 0);
    }
  }

  lemma {:induction false} PermutationsFromCount<T>(items: seq<T>, k: nat, i: nat)
    requires 0 < k && i <= |items|
    ensures |items| == 0 ==> |PermutationsFrom(items, k, i)| == 0
    ensures |items| > 0 ==> |PermutationsFrom(items, k, i)| == (|items| - i) * Falling(|items| - 1, k - 1)
    decreases k, |items| - i
  {
    if i < |items| {
      PermutationsCount(RemoveAt(items, i), k - 1);
      PermutationsFromCount(items, k, i + 1);
    }
  }

  /** Distinct positions holding distinct elements give distinct tuples. */
  lemma {:induction false} PermutationsNoDuplicates<T>(items: seq<T>, k: nat)
    requires NoDuplicates(items)
    ensures NoDuplicates(Permutations(items, k))
    decreases k, |items| + 1
  {
    if k > 0 {
      PermutationsFromNoDuplicates(items, k, 0);
    }
  }

  lemma {:induction false} PermutationsFromNoDuplicates<T>(items: seq<T>, k: nat, i: nat)
    requires 0 < k && NoDuplicates(items)
    ensures NoDuplicates(PermutationsFrom(items, k, i))
    decreases k, |items| - i
  {
    if i < |items| {
      var rest := RemoveAt(items, i);
      assert NoDuplicates(rest) by {
        forall a, b | 0 <= a < b < |rest| ensures rest[a] != rest[b] {
          var a' := if a < i then a else a + 1;
          var b' := if b < i then b else b + 1;
          assert rest[a] == items[a'] && rest[b] == items[b'];
        }
      }
      PermutationsNoDuplicates(rest, k - 1);
      var head := PrependAll(items[i], Permutations(rest, k - 1));
      assert NoDuplicates(head) by {
        forall a, b | 0 <= a < b < |head| ensures head[a] != head[b] {
          assert head[a][1..] == Permutations(rest, k - 1)[a];
          assert head[b][1..] == Permutations(rest, k - 1)[b];
        }
      }
      PermutationsFromNoDuplicates(items, k, i + 1);
      forall x | x in head ensures x !in PermutationsFrom(items, k, i + 1) {
        PrependAllMember(items[i], Permutations(rest, k - 1), x);
        forall j | i + 1 <= j ensures !PicksFirst(items, k, j, x) {
          if j < |items| {
            assert items[j] != items[i];
          }
        }
        PermutationsFromMember(items, k, i + 1, x);
      }
      NoDuplicatesAppend(head, PermutationsFrom(items, k, i + 1));
    }
  }

  // ---------------------------------------------------------------------------
  // k-fold Cartesian power (positions may repeat)
  // ---------------------------------------------------------------------------

  /** Every k-tuple of elements of `items`, first position slowest. */
  function CartesianPower<T>(items: seq<T>, k: nat): seq<seq<T>>
    decreases k, |items| + 1
  {
    if k == 0 then [[]] else CartesianPowerFrom(items, k, 0)
  }

  function CartesianPowerFrom<T>(items: seq<T>, k: nat, i: nat): seq<seq<T>>
    requires 0 < k
    decreases k, |items| - i
  {
    if i >= |items| then []
    else PrependAll(items[i], CartesianPower(items, k - 1)) + CartesianPowerFrom(items, k, i + 1)
  }

  lemma {:induction false} CartesianPowerFromMember<T>(items: seq<T>, k: nat, i: nat, p: seq<T>)
    requires 0 < k && i <= |items|
    ensures p in CartesianPowerFrom(items, k, i) <==>
              |p| > 0 && p[0] in items[i..] && p[1..] in CartesianPower(items, k - 1)
    decreases |items| - i
  {
    if i < |items| {
      CartesianPowerFromMember(items, k, i + 1, p);
      PrependAllMember(items[i], CartesianPower(items, k - 1), p);
      assert items[i..] == [items[i]] + items[i + 1..];
    }
  }

  /** The k-tuples of the Cartesian power are exactly the length-k tuples over `items`. */
  lemma {:induction false} CartesianPowerMember<T>(items: seq<T>, k: nat, p: seq<T>)
    ensures p in CartesianPower(items, k) <==> |p| == k && forall m :: 0 <= m < |p| ==> p[m] in items
    decreases k
  {
    if k > 0 {
      CartesianPowerFromMember(items, k, 0, p);
      assert items[0..] == items;
      if |p| > 0 {
        CartesianPowerMember(items, k - 1, p[1..]);
        assert forall m :: 1 <= m < |p| ==> p[m] == p[1..][m - 1];
      }
    }
  }

  /** Over distinct items, the Cartesian power lists every tuple once. */
  lemma {:induction false} CartesianPowerNoDuplicates<T>(items: seq<T>, k: nat)
    requires NoDuplicates(items)
    ensures NoDuplicates(CartesianPower(items, k))
    decreases k, |items| + 1
  {
    if k > 0 {
      CartesianPowerFromNoDuplicates(items, k, 0);
    }
  }

  lemma {:induction false} CartesianPowerFromNoDuplicates<T>(items: seq<T>, k: nat, i: nat)
    requires 0 < k && i <= |items| && NoDuplicates(items)
    ensures NoDuplicates(CartesianPowerFrom(items, k, i))
    decreases k, |items| - i
  {
    if i < |items| {
      var rest := CartesianPower(items, k - 1);
      CartesianPowerNoDuplicates(items, k - 1);
      var head := PrependAll(items[i], rest);
      assert NoDuplicates(head) by {
        forall a, b | 0 <= a < b < |head| ensures head[a] != head[b] {
          assert head[a][1..] == rest[a] && head[b][1..] == rest[b];
        }
      }
      CartesianPowerFromNoDuplicates(items, k, i + 1);
      var later := items[i + 1..];
      assert items[i] !in later by {
        forall j | 0 <= j < |later| ensures later[j] != items[i] {
          assert later[j] == items[i + 1 + j];
        }
      }
      forall x | x in head ensures x !in CartesianPowerFrom(items, k, i + 1) {
        PrependAllMember(items[i], rest, x);
        CartesianPowerFromMember(items, k, i + 1, x);
      }
      NoDuplicatesAppend(head, CartesianPowerFrom(items, k, i + 1));
    }
  }

  lemma {:induction false} CartesianPowerCount<T>(items: seq<T>, k: nat)
    ensures |CartesianPower(items, k)| == Pow(|items|, k)
    decreases k, |items| + 1
  {
    if k > 0 {
      CartesianPowerFromCount(items, k, 0);
    }
  }

  lemma {:induction false} CartesianPowerFromCount<T>(items: seq<T>, k: nat, i: nat)
    requires 0 < k && i <= |items|
    ensures |CartesianPowerFrom(items, k, i)| == (|items| - i) * Pow(|items|, k - 1)
    decreases k, |items| - i
  {
    if i < |items| {
      CartesianPowerCount(items, k - 1);
      MulSucc(|items| - i, Pow(|items|, k - 1));
      CartesianPowerFromCount(items, k, i + 1);
    }
  }

  lemma MulSucc(a: nat, b: nat)
    requires a > 0
    ensures b + (a - 1) * b == a * b
  {
  }

  // ---------------------------------------------------------------------------
  // Counting: k-permutations versus the Cartesian power
  // ---------------------------------------------------------------------------

  lemma MulMonotone(x: nat, y: nat, z: nat)
    requires y <= z
    ensures x * y <= x * z
  {
  }

  lemma MulStrict(x: nat, y: nat, z: nat)
    requires 0 < x && y < z
    ensures x * y < x * z
  {
  }

  lemma MulMonotoneIf(n: nat, a: int, c: int)
    ensures a >= c ==> n * a >= n * c
  {
  }

  lemma DivModUnique(x: nat, b: nat, q: nat, r: nat)
    requires 0 < b && r < b && x == r + b * q
    ensures x % b == r && x / b == q
  {
    var q' := x / b;
    MulMonotoneIf(b, q, q' + 1);
    MulMonotoneIf(b, q', q + 1);
  }

  lemma MixBound(x: nat, n: nat, y: nat, m: nat)
    requires x < n && y < m
    ensures x + n * y < n * m
  {
    assert n * y + n <= n * m by {
      assert n * (y + 1) <= n * m;
    }
  }

  lemma DivBound(x: nat, n: nat, m: nat)
    requires 0 < n && x < n * m
    ensures x / n < m
  {
    MulMonotoneIf(n, x / n, m);
  }

  /** Division of x < n·m by n: a remainder below n and a quotient below m that rebuild x. */
  lemma DivSplit(x: nat, n: nat, m: nat)
    requires 0 < n && x < n * m
    ensures x % n < n && x / n < m && x == x % n + n * (x / n)
  {
    DivBound(x, n, m);
  }

  lemma {:induction false} PowMonotone(a: nat, b: nat, e: nat)
    requires a < b && e > 0
    ensures Pow(a, e) < Pow(b, e)
  {
    if e > 1 {
      PowMonotone(a, b, e - 1);
      var pa, pb := Pow(a, e - 1), Pow(b, e - 1);
      MulMonotone(pa, a, b);
      MulStrict(b, pa, pb);
      assert a * pa <= b * pa < b * pb;
    }
  }

  lemma {:induction false} FallingAtMostPow(n: nat, k: nat)
    ensures Falling(n, k) <= Pow(n, k)
  {
    if k > 0 && n > 0 {
      FallingAtMostPow(n - 1, k - 1);
      if k > 1 {
        PowMonotone(n - 1, n, k - 1);
      }
      assert Falling(n - 1, k - 1) <= Pow(n, k - 1);
      assert n * Falling(n - 1, k - 1) <= n * Pow(n, k - 1);
    }
  }

  /**
   * On a non-empty list, drawing k distinct positions yields as many tuples as the
   * Cartesian power exactly when k <= 1; from k = 2 on it yields strictly fewer.
   */
  lemma {:induction false} FallingEqualsPowIff(n: nat, k: nat)
    requires n > 0
    ensures Falling(n, k) <= Pow(n, k)
    ensures Falling(n, k) == Pow(n, k) <==> k <= 1
  {
    FallingAtMostPow(n, k);
    if k == 1 {
      assert Falling(n - 1, 0) == 1 && Pow(n, 0) == 1;
    } else if k >= 2 {
      FallingAtMostPow(n - 1, k - 1);
      PowMonotone(n - 1, n, k - 1);
      assert Falling(n - 1, k - 1) < Pow(n, k - 1);
      assert n * Falling(n - 1, k - 1) < n * Pow(n, k - 1);
    }
  }
}
