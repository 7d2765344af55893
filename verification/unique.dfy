/**
 * Duplicate-free lists, and the order-preserving de-duplication the scripts
 * perform with a `seen` set.
 */
module Unique {

  predicate NoDuplicates<T(==)>(xs: seq<T>) {
    forall i, j :: 0 <= i < j < |xs| ==> xs[i] != xs[j]
  }

  /** Dropping the first of a list without duplicates leaves one without duplicates, missing that first element. */
  lemma NoDuplicatesTail<T>(xs: seq<T>)
    requires NoDuplicates(xs) && xs != []
    ensures NoDuplicates(xs[1..]) && xs[0] !in xs[1..]
  {
    var rest := xs[1..];
    forall i, j | 0 <= i < j < |rest| ensures rest[i] != rest[j] {
      assert rest[i] == xs[i + 1] && rest[j] == xs[j + 1];
    }
    forall i | 0 <= i < |rest| ensures rest[i] != xs[0] {
      assert rest[i] == xs[i + 1];
    }
  }

  /** Index of the first occurrence of `x`, which must occur. */
  function FirstIndex<T(==)>(xs: seq<T>, x: T): (k: nat)
    requires x in xs
    ensures k < |xs| && xs[k] == x
    ensures forall j :: 0 <= j < k ==> xs[j] != x
  {
    if xs[0] == x then 0 else 1 + FirstIndex(xs[1..], x)
  }

  /** Occurrences in a prefix are first found where they are in the whole list. */
  lemma FirstIndexPrefix<T>(xs: seq<T>, n: nat, x: T)
    requires n <= |xs| && x in xs[..n]
    ensures FirstIndex(xs[..n], x) == FirstIndex(xs, x)
  {
    var k := FirstIndex(xs[..n], x);
    assert forall j :: 0 <= j <= k ==> xs[..n][j] == xs[j];
  }

  /**
   * The first occurrence of each element, in the order of first occurrence:
   * what `for x in xs: if x not in seen: seen.add(x); out.append(x)` builds.
   */
  function Distinct<T(==,!new)>(xs: seq<T>): (r: seq<T>)
    ensures NoDuplicates(r)
    ensures forall x :: x in r <==> x in xs
  {
    if xs == [] then []
    else
      var init := xs[..|xs| - 1];
      var last := xs[|xs| - 1];
      var d := Distinct(init);
      assert forall x :: x in xs <==> x in init || x == last by {
        assert xs == init + [last];
      }
      if last in init then d else d + [last]
  }

  /** `Distinct` keeps elements in the order in which they first occur. */
  lemma {:induction false} DistinctOrder<T(!new)>(xs: seq<T>)
    ensures forall i, j :: 0 <= i < j < |Distinct(xs)| ==>
              FirstIndex(xs, Distinct(xs)[i]) < FirstIndex(xs, Distinct(xs)[j])
  {
    if xs != [] {
      var n := |xs| - 1;
      var init := xs[..n];
      var last := xs[n];
      var d := Distinct(init);
      DistinctOrder(init);
      var r := Distinct(xs);
      forall i, j | 0 <= i < j < |r| ensures FirstIndex(xs, r[i]) < FirstIndex(xs, r[j]) {
        assert r[i] in init by { assert r[i] == d[i]; }
        FirstIndexPrefix(xs, n, r[i]);
        if j < |d| {
          assert r[j] == d[j] && r[i] == d[i];
          FirstIndexPrefix(xs, n, r[j]);
        } else {
          assert r[j] == last && last !in init;
          assert FirstIndex(xs, r[i]) < n;
        }
      }
    }
  }

  /** A list that already has no duplicates is its own de-duplication. */
  lemma {:induction false} DistinctOfUnique<T(!new)>(xs: seq<T>)
    requires NoDuplicates(xs)
    ensures Distinct(xs) == xs
  {
    if xs != [] {
      var n := |xs| - 1;
      var init := xs[..n];
      assert NoDuplicates(init) by {
        forall i, j | 0 <= i < j < n ensures init[i] != init[j] {
          assert init[i] == xs[i] && init[j] == xs[j];
        }
      }
      DistinctOfUnique(init);
      assert xs[n] !in init;
      assert init + [xs[n]] == xs;
    }
  }

  /** In a list without duplicates every element occurs at most once. */
  lemma {:induction false} NoDuplicatesCount<T>(xs: seq<T>, x: T)
    requires NoDuplicates(xs)
    ensures multiset(xs)[x] <= 1
  {
    if xs != [] {
      NoDuplicatesTail(xs);
      NoDuplicatesCount(xs[1..], x);
      assert xs == [xs[0]] + xs[1..];
      assert multiset(xs) == multiset([xs[0]]) + multiset(xs[1..]);
    }
  }

  /** An element found at two indices occurs at least twice. */
  lemma RepeatedCount<T>(ys: seq<T>, i: nat, j: nat)
    requires i < j < |ys| && ys[i] == ys[j]
    ensures multiset(ys)[ys[i]] >= 2
  {
    assert ys == ys[..j] + ys[j..];
    assert ys[i] in ys[..j] && ys[j] in ys[j..];
    assert multiset(ys) == multiset(ys[..j]) + multiset(ys[j..]);
  }

  /** Reordering a list without duplicates leaves it without duplicates. */
  lemma NoDuplicatesPermutation<T>(xs: seq<T>, ys: seq<T>)
    requires multiset(xs) == multiset(ys) && NoDuplicates(xs)
    ensures NoDuplicates(ys)
  {
    forall i, j | 0 <= i < j < |ys| ensures ys[i] != ys[j] {
      if ys[i] == ys[j] {
        RepeatedCount(ys, i, j);
        NoDuplicatesCount(xs, ys[i]);
        assert false;
      }
    }
  }
}
