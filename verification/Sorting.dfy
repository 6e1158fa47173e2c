/** Sorting by a text key, as `slices.SortFunc` and `sort.Slice` do for entries, directory names and remote nodes. */
module Sorting {
  import opened Text

  function InsertBy<T>(key: T -> string, x: T, xs: seq<T>): seq<T> {
    if xs == [] || !Less(key(xs[0]), key(x)) then [x] + xs else [xs[0]] + InsertBy(key, x, xs[1..])
  }

  function SortBy<T>(key: T -> string, xs: seq<T>): seq<T> {
    if xs == [] then [] else InsertBy(key, xs[0], SortBy(key, xs[1..]))
  }

  /** Ordered by key, equal keys in any order. */
  ghost predicate SortedBy<T>(key: T -> string, xs: seq<T>) {
    forall i, j :: 0 <= i < j < |xs| ==> !Less(key(xs[j]), key(xs[i]))
  }

  ghost predicate AscendingBy<T>(key: T -> string, xs: seq<T>) {
    forall i, j :: 0 <= i < j < |xs| ==> Less(key(xs[i]), key(xs[j]))
  }

  ghost predicate DistinctBy<T>(key: T -> string, xs: seq<T>) {
    forall i, j :: 0 <= i < j < |xs| ==> key(xs[i]) != key(xs[j])
  }

  lemma {:induction false} InsertByPermutes<T>(key: T -> string, x: T, xs: seq<T>)
    ensures multiset(InsertBy(key, x, xs)) == multiset(xs) + multiset{x}
  {
    if xs != [] && Less(key(xs[0]), key(x)) {
      InsertByPermutes(key, x, xs[1..]);
      assert xs == [xs[0]] + xs[1..];
    }
  }

  lemma {:induction false} InsertBySorts<T>(key: T -> string, x: T, xs: seq<T>)
    requires SortedBy(key, xs)
    ensures SortedBy(key, InsertBy(key, x, xs))
  {
    if xs != [] {
      var first, tail := xs[0], InsertBy(key, x, xs[1..]);
      LessTotal(key(first), key(x));
      if Less(key(first), key(x)) {
        InsertBySorts(key, x, xs[1..]);
        InsertByPermutes(key, x, xs[1..]);
        forall j | 0 <= j < |tail| ensures !Less(key(tail[j]), key(first)) { assert tail[j] in multiset(tail); }
      } else {
        forall j | 0 <= j < |xs| ensures !Less(key(xs[j]), key(x)) { LessNotBelow(key(x), key(first), key(xs[j])); }
      }
    }
  }

  /** Sorting orders and permutes. */
  lemma {:induction false} SortBySorts<T>(key: T -> string, xs: seq<T>)
    ensures SortedBy(key, SortBy(key, xs)) && multiset(SortBy(key, xs)) == multiset(xs)
  {
    if xs != [] {
      SortBySorts(key, xs[1..]);
      InsertBySorts(key, xs[0], SortBy(key, xs[1..]));
      InsertByPermutes(key, xs[0], SortBy(key, xs[1..]));
      assert xs == [xs[0]] + xs[1..];
    }
  }

  lemma SameMembers<T>(a: seq<T>, b: seq<T>)
    requires multiset(a) == multiset(b)
    ensures |a| == |b| && forall x :: x in a <==> x in b
  {
    assert |multiset(a)| == |multiset(b)|;
    forall x ensures x in a <==> x in b { assert x in multiset(a) <==> x in multiset(b); }
  }

  lemma OccursTwice<T>(xs: seq<T>, i: nat, j: nat)
    requires i < j < |xs| && xs[i] == xs[j]
    ensures multiset(xs)[xs[i]] >= 2
  {
    assert xs == xs[..j] + [xs[j]] + xs[j + 1..];
    assert xs[..j][i] == xs[i];
    assert xs[i] in multiset(xs[..j]);
  }

  lemma {:induction false} OccursOnce<T>(key: T -> string, xs: seq<T>, x: T)
    requires DistinctBy(key, xs)
    ensures multiset(xs)[x] <= 1
  {
    if xs != [] {
      OccursOnce(key, xs[1..], x);
      assert xs == [xs[0]] + xs[1..];
      if xs[0] == x { assert x !in xs[1..]; }
    }
  }

  /** Different keys stay different under a permutation. */
  lemma DistinctAfter<T>(key: T -> string, xs: seq<T>, permuted: seq<T>)
    requires multiset(permuted) == multiset(xs) && DistinctBy(key, xs)
    ensures DistinctBy(key, permuted)
  {
    SameMembers(permuted, xs);
    forall i, j | 0 <= i < j < |permuted| ensures key(permuted[i]) != key(permuted[j]) {
      if key(permuted[i]) == key(permuted[j]) {
        assert permuted[i] in xs && permuted[j] in xs;
        assert permuted[i] == permuted[j];
        OccursTwice(permuted, i, j);
        OccursOnce(key, xs, permuted[i]);
      }
    }
  }

  /** Sorted by different keys is ascending. */
  lemma SortedDistinctAscends<T>(key: T -> string, xs: seq<T>)
    requires SortedBy(key, xs) && DistinctBy(key, xs)
    ensures AscendingBy(key, xs)
  {
    forall i, j | 0 <= i < j < |xs| ensures Less(key(xs[i]), key(xs[j])) {
      LessTotal(key(xs[i]), key(xs[j]));
    }
  }

  lemma {:induction false} AscendingStays<T>(key: T -> string, xs: seq<T>)
    requires AscendingBy(key, xs)
    ensures SortBy(key, xs) == xs
  {
    if xs != [] {
      AscendingStays(key, xs[1..]);
      if |xs| > 1 { LessTotal(key(xs[0]), key(xs[1])); }
      assert xs == [xs[0]] + xs[1..];
    }
  }
}
