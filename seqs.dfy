/** Generic list helpers: the JavaScript array methods the dashboard relies on
    (`filter`, `indexOf`, `Array.from(new Set(...))`), stated once and proved once. */
module Seqs {

  /** No element occurs twice. */
  predicate NoDups<T(==)>(xs: seq<T>) {
    forall i, j :: 0 <= i < j < |xs| ==> xs[i] != xs[j]
  }

  /** Concatenation is associative. */
  lemma AppendAssoc<T>(a: seq<T>, b: seq<T>, c: seq<T>)
    ensures a + b + c == a + (b + c)
  {
  }

  /** `xs.filter(p)`: the elements satisfying `p`, in their original order. */
  function Filter<T(!new)>(xs: seq<T>, p: T -> bool): (r: seq<T>)
    ensures |r| <= |xs|
    ensures forall x :: x in r <==> x in xs && p(x)
  {
    if |xs| == 0 then []
    else if p(xs[0]) then [xs[0]] + Filter(xs[1..], p)
    else Filter(xs[1..], p)
  }

  lemma {:induction false} FilterAppend<T(!new)>(a: seq<T>, b: seq<T>, p: T -> bool)
    ensures Filter(a + b, p) == Filter(a, p) + Filter(b, p)
  {
    if |a| > 0 {
      assert (a + b)[1..] == a[1..] + b;
      FilterAppend(a[1..], b, p);
    } else {
      assert a + b == b;
    }
  }

  /** Filtering out a single failing element between two lists of passing
      ones leaves the two lists. */
  lemma FilterDropsOne<T(!new)>(a: seq<T>, x: T, b: seq<T>, p: T -> bool)
    requires forall k :: 0 <= k < |a| ==> p(a[k])
    requires forall k :: 0 <= k < |b| ==> p(b[k])
    requires !p(x)
    ensures Filter(a + [x] + b, p) == a + b
  {
    FilterKeepsAll(a, p);
    FilterKeepsAll(b, p);
    assert Filter([x], p) == [] by {
      assert [x][1..] == [];
    }
    FilterAppend(a, [x], p);
    assert Filter(a + [x], p) == a by {
      assert a + [] == a;
    }
    FilterAppend(a + [x], b, p);
  }

  /** Filtering twice is filtering once by both tests. */
  lemma {:induction false} FilterFilter<T(!new)>(xs: seq<T>, p: T -> bool, q: T -> bool, both: T -> bool)
    requires forall x :: both(x) == (p(x) && q(x))
    ensures Filter(Filter(xs, p), q) == Filter(xs, both)
  {
    if |xs| > 0 {
      FilterFilter(xs[1..], p, q, both);
      if p(xs[0]) {
        assert ([xs[0]] + Filter(xs[1..], p))[1..] == Filter(xs[1..], p);
      }
    }
  }

  /** A relation every earlier-later pair satisfies still holds after
      filtering, which keeps the order. */
  lemma {:induction false} FilterPairwise<T(!new)>(xs: seq<T>, p: T -> bool, rel: (T, T) -> bool)
    requires forall i, j :: 0 <= i < j < |xs| ==> rel(xs[i], xs[j])
    ensures forall i, j :: 0 <= i < j < |Filter(xs, p)| ==> rel(Filter(xs, p)[i], Filter(xs, p)[j])
  {
    if |xs| > 0 {
      var tail := xs[1..];
      forall i, j | 0 <= i < j < |tail| ensures rel(tail[i], tail[j]) {
        assert tail[i] == xs[i + 1] && tail[j] == xs[j + 1];
      }
      FilterPairwise(tail, p, rel);
      if p(xs[0]) {
        var f := Filter(tail, p);
        var r := [xs[0]] + f;
        forall i, j | 0 <= i < j < |r| ensures rel(r[i], r[j]) {
          if i == 0 {
            assert r[j] in f;
            var k :| 0 <= k < |tail| && tail[k] == r[j];
            assert xs[k + 1] == r[j];
          } else {
            assert r[i] == f[i - 1] && r[j] == f[j - 1];
          }
        }
      }
    }
  }

  /** Filtering with a predicate no element satisfies leaves nothing. */
  lemma {:induction false} FilterNone<T(!new)>(xs: seq<T>, p: T -> bool)
    requires forall i :: 0 <= i < |xs| ==> !p(xs[i])
    ensures Filter(xs, p) == []
  {
    if |xs| > 0 {
      FilterNone(xs[1..], p);
    }
  }

  /** Filtering with a predicate every element satisfies changes nothing. */
  lemma {:induction false} FilterKeepsAll<T(!new)>(xs: seq<T>, p: T -> bool)
    requires forall i :: 0 <= i < |xs| ==> p(xs[i])
    ensures Filter(xs, p) == xs
  {
    if |xs| > 0 {
      FilterKeepsAll(xs[1..], p);
    }
  }

  /** The tail of a duplicate-free list is duplicate-free. */
  lemma NoDupsTail<T>(xs: seq<T>)
    requires NoDups(xs) && |xs| > 0
    ensures NoDups(xs[1..]) && xs[0] !in xs[1..]
  {
    forall i, j | 0 <= i < j < |xs| - 1 ensures xs[1..][i] != xs[1..][j] {
      assert xs[1..][i] == xs[i + 1] && xs[1..][j] == xs[j + 1];
    }
  }

  /** Filtering never creates duplicates. */
  lemma {:induction false} FilterNoDups<T(!new)>(xs: seq<T>, p: T -> bool)
    requires NoDups(xs)
    ensures NoDups(Filter(xs, p))
  {
    if |xs| > 0 {
      NoDupsTail(xs);
      var f := Filter(xs[1..], p);
      FilterNoDups(xs[1..], p);
      if p(xs[0]) {
        var r := [xs[0]] + f;
        forall i, j | 0 <= i < j < |r| ensures r[i] != r[j] {
          if i == 0 {
            assert r[j] in f;
          } else {
            assert r[i] == f[i - 1] && r[j] == f[j - 1];
          }
        }
      }
    }
  }

  /** `Array.from(new Set(xs))`: the first occurrence of each element, in order. */
  function Dedup<T(==,!new)>(xs: seq<T>): (r: seq<T>)
    ensures NoDups(r)
    ensures forall x :: x in r <==> x in xs
    ensures NoDups(xs) ==> r == xs
    decreases |xs|
  {
    if |xs| == 0 then []
    else
      var init := xs[..|xs| - 1];
      var d := Dedup(init);
      assert xs == init + [xs[|xs| - 1]];
      if xs[|xs| - 1] in d then d else d + [xs[|xs| - 1]]
  }

  /** `xs.indexOf(x)`: the first position of `x`, or -1 when it is absent. */
  function IndexOf<T(==)>(xs: seq<T>, x: T): (r: int)
    ensures r == -1 <==> x !in xs
    ensures r != -1 ==> 0 <= r < |xs| && xs[r] == x
  {
    if |xs| == 0 then -1
    else if xs[0] == x then 0
    else
      var k := IndexOf(xs[1..], x);
      if k == -1 then -1 else k + 1
  }

  /** `IndexOf` finds the first occurrence: `x` does not occur before it. */
  lemma {:induction false} IndexOfFirst<T>(xs: seq<T>, x: T)
    requires x in xs
    ensures x !in xs[..IndexOf(xs, x)]
  {
    if xs[0] != x {
      IndexOfFirst(xs[1..], x);
      var k := IndexOf(xs[1..], x);
      assert xs[..k + 1] == [xs[0]] + xs[1..][..k];
    }
  }

  /** The first position of `x` is the one before which it does not occur. */
  lemma {:induction false} IndexOfAt<T>(xs: seq<T>, x: T, i: int)
    requires 0 <= i < |xs| && xs[i] == x && x !in xs[..i]
    ensures IndexOf(xs, x) == i
  {
    if i > 0 {
      assert xs[0] in xs[..i];
      assert xs[1..][..i - 1] == xs[..i][1..];
      IndexOfAt(xs[1..], x, i - 1);
    }
  }

  /** Appending never moves the first occurrence of an element already there. */
  lemma IndexOfSnoc<T>(xs: seq<T>, x: T, y: T)
    requires y in xs
    ensures IndexOf(xs + [x], y) == IndexOf(xs, y)
  {
    var k := IndexOf(xs, y);
    IndexOfFirst(xs, y);
    assert (xs + [x])[..k] == xs[..k];
    IndexOfAt(xs + [x], y, k);
  }

  /** A new element appended is first found at the end. */
  lemma IndexOfSnocNew<T>(xs: seq<T>, x: T)
    requires x !in xs
    ensures IndexOf(xs + [x], x) == |xs|
  {
    assert (xs + [x])[..|xs|] == xs;
    IndexOfAt(xs + [x], x, |xs|);
  }

  /** The elements of `r` appear in the order of their first positions in `xs`. */
  predicate InFirstOrder<T(==)>(xs: seq<T>, r: seq<T>) {
    forall i, j :: 0 <= i < j < |r| ==> IndexOf(xs, r[i]) < IndexOf(xs, r[j])
  }

  /** `Array.from(new Set(xs))` keeps first occurrences in order: the elements
      of the result appear in the order of their first positions in `xs`. */
  lemma {:induction false} DedupOrder<T(!new)>(xs: seq<T>)
    ensures InFirstOrder(xs, Dedup(xs))
    decreases |xs|
  {
    if |xs| > 0 {
      var init, x := xs[..|xs| - 1], xs[|xs| - 1];
      assert xs == init + [x];
      DedupOrder(init);
      DedupSnocOrder(init, x);
    }
  }

  lemma DedupSnocOrder<T(!new)>(init: seq<T>, x: T)
    requires InFirstOrder(init, Dedup(init))
    ensures InFirstOrder(init + [x], Dedup(init + [x]))
  {
    var xs := init + [x];
    assert xs[..|xs| - 1] == init;
    var d := Dedup(init);
    SnocKeepsOrder(init, x, d);
    if x !in d {
      IndexOfSnocNew(init, x);
      AppendNewKeepsOrder(xs, d, x);
    }
  }

  /** Appending to `xs` keeps the order of a list drawn from `xs`. */
  lemma SnocKeepsOrder<T>(init: seq<T>, x: T, d: seq<T>)
    requires InFirstOrder(init, d) && forall k :: 0 <= k < |d| ==> d[k] in init
    ensures InFirstOrder(init + [x], d)
    ensures forall k :: 0 <= k < |d| ==> IndexOf(init + [x], d[k]) < |init|
  {
    forall k | 0 <= k < |d| ensures IndexOf(init + [x], d[k]) == IndexOf(init, d[k]) {
      IndexOfSnoc(init, x, d[k]);
    }
  }

  /** A list in order, followed by an element found after all of it, is in order. */
  lemma AppendNewKeepsOrder<T>(xs: seq<T>, d: seq<T>, x: T)
    requires InFirstOrder(xs, d)
    requires forall k :: 0 <= k < |d| ==> IndexOf(xs, d[k]) < IndexOf(xs, x)
    ensures InFirstOrder(xs, d + [x])
  {
    var r := d + [x];
    forall i, j | 0 <= i < j < |r| ensures IndexOf(xs, r[i]) < IndexOf(xs, r[j]) {
      assert r[i] == d[i];
      if j < |d| {
        assert r[j] == d[j];
      }
    }
  }

  /** Filtering keeps the relative order of the first occurrences. */
  lemma {:induction false} FilterIndexOf<T(!new)>(xs: seq<T>, p: T -> bool, y: T, z: T)
    requires y in Filter(xs, p) && z in Filter(xs, p)
    requires IndexOf(Filter(xs, p), y) < IndexOf(Filter(xs, p), z)
    ensures IndexOf(xs, y) < IndexOf(xs, z)
    decreases |xs|
  {
    var h, f := xs[0], Filter(xs, p);
    var f' := Filter(xs[1..], p);
    if p(h) {
      assert f == [h] + f';
      if y != h {
        assert z != h;
        assert IndexOf(f, y) == IndexOf(f', y) + 1 && IndexOf(f, z) == IndexOf(f', z) + 1;
        FilterIndexOf(xs[1..], p, y, z);
      }
    } else {
      assert f == f';
      FilterIndexOf(xs[1..], p, y, z);
    }
  }

  /** In a list without duplicates, `IndexOf` is the unique position of an element. */
  lemma IndexOfUnique<T>(xs: seq<T>, i: int)
    requires NoDups(xs) && 0 <= i < |xs|
    ensures IndexOf(xs, xs[i]) == i
  {
    IndexOfAt(xs, xs[i], i);
  }

  /** Multiplicities in a list without duplicates are at most one. */
  lemma {:induction false} NoDupsMultiplicity<T>(xs: seq<T>, x: T)
    requires NoDups(xs)
    ensures multiset(xs)[x] == if x in xs then 1 else 0
  {
    if |xs| > 0 {
      assert xs == [xs[0]] + xs[1..];
      assert NoDups(xs[1..]) by {
        forall i, j | 0 <= i < j < |xs[1..]| ensures xs[1..][i] != xs[1..][j] {
          assert xs[1..][i] == xs[i + 1] && xs[1..][j] == xs[j + 1];
        }
      }
      NoDupsMultiplicity(xs[1..], x);
      assert xs[0] !in xs[1..];
    }
  }

  /** Two duplicate-free lists with the same elements are permutations of each other. */
  lemma SameSetIsPermutation<T>(xs: seq<T>, ys: seq<T>)
    requires NoDups(xs) && NoDups(ys)
    requires forall x :: x in xs <==> x in ys
    ensures multiset(xs) == multiset(ys)
  {
    forall x ensures multiset(xs)[x] == multiset(ys)[x] {
      NoDupsMultiplicity(xs, x);
      NoDupsMultiplicity(ys, x);
    }
  }

  /** A permutation of a duplicate-free list is duplicate-free. */
  lemma PermutationKeepsNoDups<T>(xs: seq<T>, ys: seq<T>)
    requires NoDups(xs) && multiset(xs) == multiset(ys)
    ensures NoDups(ys)
  {
    forall i, j | 0 <= i < j < |ys| ensures ys[i] != ys[j] {
      if ys[i] == ys[j] {
        var x := ys[i];
        assert ys == ys[..j] + [ys[j]] + ys[j + 1..];
        assert x in ys[..j];
        assert multiset(ys)[x] >= 2 by {
          assert multiset(ys) == multiset(ys[..j]) + multiset([x]) + multiset(ys[j + 1..]);
        }
        NoDupsMultiplicity(xs, x);
      }
    }
  }

  /** The set of elements of a list. */
  function Elements<T>(xs: seq<T>): set<T> {
    set x | x in xs
  }

  /** A filter keeps every element exactly when its length does not drop. */
  /** `xs.filter(p).length` is the number of positions whose element passes. */
  lemma FilterCount<T(!new)>(xs: seq<T>, p: T -> bool)
    ensures |Filter(xs, p)| == |Passing(xs, p, |xs|)|
  {
    FilterCountPrefix(xs, p, |xs|);
    assert xs[..|xs|] == xs;
  }

  lemma {:induction false} FilterCountPrefix<T(!new)>(xs: seq<T>, p: T -> bool, n: nat)
    requires n <= |xs|
    ensures |Filter(xs[..n], p)| == |Passing(xs, p, n)|
  {
    if n == 0 {
      assert Passing(xs, p, n) == {};
    } else {
      FilterCountPrefix(xs, p, n - 1);
      FilterPrefixStep(xs, p, n);
      PassingStep(xs, p, n);
    }
  }

  /** The positions below `n` whose element passes `p`. */
  function Passing<T>(xs: seq<T>, p: T -> bool, n: nat): set<int>
    requires n <= |xs|
  {
    set i | 0 <= i < n && p(xs[i])
  }

  lemma PassingStep<T>(xs: seq<T>, p: T -> bool, n: nat)
    requires 0 < n <= |xs|
    ensures |Passing(xs, p, n)| == |Passing(xs, p, n - 1)| + if p(xs[n - 1]) then 1 else 0
  {
    if p(xs[n - 1]) {
      PassingGrows(xs, p, n);
      assert n - 1 !in Passing(xs, p, n - 1);
    } else {
      PassingSame(xs, p, n);
    }
  }

  lemma PassingGrows<T>(xs: seq<T>, p: T -> bool, n: nat)
    requires 0 < n <= |xs| && p(xs[n - 1])
    ensures Passing(xs, p, n) == Passing(xs, p, n - 1) + {n - 1}
  {
    forall i ensures i in Passing(xs, p, n) <==> i in Passing(xs, p, n - 1) + {n - 1} {
    }
  }

  lemma PassingSame<T>(xs: seq<T>, p: T -> bool, n: nat)
    requires 0 < n <= |xs| && !p(xs[n - 1])
    ensures Passing(xs, p, n) == Passing(xs, p, n - 1)
  {
    forall i ensures i in Passing(xs, p, n) <==> i in Passing(xs, p, n - 1) {
    }
  }

  lemma FilterPrefixStep<T(!new)>(xs: seq<T>, p: T -> bool, n: nat)
    requires 0 < n <= |xs|
    ensures |Filter(xs[..n], p)| == |Filter(xs[..n - 1], p)| + if p(xs[n - 1]) then 1 else 0
  {
    assert xs[..n] == xs[..n - 1] + [xs[n - 1]];
    FilterSnoc(xs[..n - 1], xs[n - 1], p);
  }

  lemma FilterSnoc<T(!new)>(xs: seq<T>, x: T, p: T -> bool)
    ensures |Filter(xs + [x], p)| == |Filter(xs, p)| + if p(x) then 1 else 0
  {
    FilterAppend(xs, [x], p);
    assert [x][1..] == [];
  }

  lemma {:induction false} FilterLength<T(!new)>(xs: seq<T>, p: T -> bool)
    ensures |Filter(xs, p)| == |xs| <==> forall i :: 0 <= i < |xs| ==> p(xs[i])
  {
    if |xs| > 0 {
      FilterLength(xs[1..], p);
      if !p(xs[0]) {
        assert |Filter(xs, p)| < |xs|;
      } else if forall i :: 0 <= i < |xs[1..]| ==> p(xs[1..][i]) {
        forall i | 0 <= i < |xs| ensures p(xs[i]) {
          if i > 0 {
            assert xs[i] == xs[1..][i - 1];
          }
        }
      }
    }
  }
}
