/**
 * Python's `list.sort(key=key, reverse=True)` as the frequency scorer uses
 * it, and the facts about orderings its proofs need: a sorted rearrangement
 * is determined by its elements once no two of them share a key.
 */
module Sorting {

  /** Keys never grow from left to right. */
  predicate SortedDown<T>(xs: seq<T>, key: T -> int) {
    forall i, j :: 0 <= i < j < |xs| ==> key(xs[i]) >= key(xs[j])
  }

  /** Keys shrink strictly from left to right. */
  predicate StrictlyDown<T>(xs: seq<T>, key: T -> int) {
    forall i, j :: 0 <= i < j < |xs| ==> key(xs[i]) > key(xs[j])
  }

  /** No two positions hold the same key. */
  predicate DistinctKeys<T>(xs: seq<T>, key: T -> int) {
    forall i, j :: 0 <= i < j < |xs| ==> key(xs[i]) != key(xs[j])
  }

  predicate NoDuplicates<T(==,!new)>(xs: seq<T>) {
    forall i, j :: 0 <= i < j < |xs| ==> xs[i] != xs[j]
  }

  /** x placed into a sorted list in front of the first element whose key is not larger. */
  function Insert<T(==,!new)>(x: T, xs: seq<T>, key: T -> int): (r: seq<T>)
    requires SortedDown(xs, key)
    ensures SortedDown(r, key)
    ensures multiset(r) == multiset(xs) + multiset{x}
    ensures StrictlyDown(xs, key) && (forall y :: y in xs ==> key(y) != key(x)) ==> StrictlyDown(r, key)
    decreases |xs|, 1
  {
    if xs == [] || key(x) >= key(xs[0]) then
      assert forall j :: 0 <= j < |xs| ==> key(x) >= key(xs[j]) by {
        forall j | 0 <= j < |xs| ensures key(x) >= key(xs[j]) {
          if j > 0 {
            assert key(xs[0]) >= key(xs[j]);
          }
        }
      }
      [x] + xs
    else
      InsertBelow(x, xs, key)
  }

  /** The case of Insert where x goes after the first element. */
  function InsertBelow<T(==,!new)>(x: T, xs: seq<T>, key: T -> int): (r: seq<T>)
    requires SortedDown(xs, key)
    requires xs != [] && key(x) < key(xs[0])
    ensures SortedDown(r, key)
    ensures multiset(r) == multiset(xs) + multiset{x}
    ensures StrictlyDown(xs, key) && (forall y :: y in xs ==> key(y) != key(x)) ==> StrictlyDown(r, key)
    decreases |xs|, 0
  {
    var tail := xs[1..];
    assert xs == [xs[0]] + tail;
    var rest := Insert(x, tail, key);
    PrependLargest(xs[0], x, tail, rest, key);
    [xs[0]] + rest
  }

  /** Putting in front an element whose key tops those of x and of the sorted tail it was inserted into. */
  lemma PrependLargest<T(!new)>(h: T, x: T, tail: seq<T>, rest: seq<T>, key: T -> int)
    requires SortedDown([h] + tail, key) && key(x) < key(h)
    requires SortedDown(rest, key) && multiset(rest) == multiset(tail) + multiset{x}
    requires StrictlyDown([h] + tail, key) && (forall y :: y in [h] + tail ==> key(y) != key(x)) ==> StrictlyDown(rest, key)
    ensures SortedDown([h] + rest, key)
    ensures StrictlyDown([h] + tail, key) && (forall y :: y in [h] + tail ==> key(y) != key(x)) ==> StrictlyDown([h] + rest, key)
  {
    var xs := [h] + tail;
    forall j | 0 <= j < |rest| ensures key(rest[j]) <= key(h) && (StrictlyDown(xs, key) ==> key(rest[j]) < key(h)) {
      assert rest[j] in multiset(rest);
      if rest[j] != x {
        assert rest[j] in tail;
        var k :| 0 <= k < |tail| && tail[k] == rest[j];
        assert xs[0] == h && xs[k + 1] == rest[j];
        assert key(xs[0]) >= key(xs[k + 1]);
        assert StrictlyDown(xs, key) ==> key(xs[0]) > key(xs[k + 1]);
      }
    }
  }

  /**
   * `xs.sort(key=key, reverse=True)`: a rearrangement of xs whose keys go from
   * largest to smallest, strictly so when no two elements share a key.
   * Elements with equal keys keep their order, as Python's sort is stable.
   */
  function SortDescending<T(==,!new)>(xs: seq<T>, key: T -> int): (r: seq<T>)
    ensures SortedDown(r, key)
    ensures multiset(r) == multiset(xs)
    ensures DistinctKeys(xs, key) ==> StrictlyDown(r, key)
  {
    if xs == [] then []
    else
      var rest := SortDescending(xs[1..], key);
      assert xs == [xs[0]] + xs[1..];
      assert DistinctKeys(xs, key) ==> forall y :: y in rest ==> key(y) != key(xs[0]) by {
        if DistinctKeys(xs, key) {
          HeadKeyUnshared(xs, rest, key);
        }
      }
      Insert(xs[0], rest, key)
  }

  /** With distinct keys, nothing among the other elements shares the head's key. */
  lemma HeadKeyUnshared<T(!new)>(xs: seq<T>, rest: seq<T>, key: T -> int)
    requires xs != [] && DistinctKeys(xs, key)
    requires multiset(rest) == multiset(xs[1..])
    ensures forall y :: y in rest ==> key(y) != key(xs[0])
  {
    forall y | y in rest ensures key(y) != key(xs[0]) {
      assert y in multiset(xs[1..]);
    }
  }

  /** Sorting keeps exactly the elements it was given. */
  lemma SortDescendingMembers<T(!new)>(xs: seq<T>, key: T -> int)
    ensures forall y :: y in SortDescending(xs, key) <==> y in xs
  {
    var r := SortDescending(xs, key);
    assert forall y :: y in r <==> y in multiset(r);
    assert forall y :: y in xs <==> y in multiset(xs);
  }

  /** Two lists whose keys shrink strictly and that hold the same elements are the same list. */
  lemma {:induction false} StrictlyDownUnique<T(!new)>(xs: seq<T>, ys: seq<T>, key: T -> int)
    requires StrictlyDown(xs, key) && StrictlyDown(ys, key)
    requires forall z :: z in xs <==> z in ys
    ensures xs == ys
    decreases |xs|
  {
    assert ys != [] ==> ys[0] in xs;
    if xs == [] {
    } else {
      assert xs[0] in ys;
      HeadIsLargest(xs, ys[0], key);
      HeadIsLargest(ys, xs[0], key);
      assert xs[0] == ys[0];
      forall z ensures z in xs[1..] <==> z in ys[1..] {
        if z in xs[1..] {
          var k :| 1 <= k < |xs| && xs[k] == z;
          assert key(z) < key(xs[0]);
        }
        if z in ys[1..] {
          var k :| 1 <= k < |ys| && ys[k] == z;
          assert key(z) < key(ys[0]);
        }
        assert z in xs <==> z == xs[0] || z in xs[1..];
        assert z in ys <==> z == ys[0] || z in ys[1..];
      }
      StrictlyDownUnique(xs[1..], ys[1..], key);
      assert xs == [xs[0]] + xs[1..] == [ys[0]] + ys[1..] == ys;
    }
  }

  /** The head of a strictly descending list has the largest key, and no other element shares it. */
  lemma HeadIsLargest<T(!new)>(xs: seq<T>, z: T, key: T -> int)
    requires StrictlyDown(xs, key) && z in xs
    ensures key(z) <= key(xs[0])
    ensures key(z) == key(xs[0]) ==> z == xs[0]
  {
    var i :| 0 <= i < |xs| && xs[i] == z;
    assert i == 0 || key(xs[0]) > key(xs[i]);
  }

  /** Two strictly descending lists, the first wholly above the second, join into one. */
  lemma StrictlyDownAppend<T(!new)>(a: seq<T>, b: seq<T>, key: T -> int)
    requires StrictlyDown(a, key) && StrictlyDown(b, key)
    requires forall x, y :: x in a && y in b ==> key(x) > key(y)
    ensures StrictlyDown(a + b, key)
  {
    forall i, j | 0 <= i < j < |a + b| ensures key((a + b)[i]) > key((a + b)[j]) {
      if j >= |a| && i < |a| {
        assert (a + b)[i] in a && (a + b)[j] in b;
      }
    }
  }

  /** A list without duplicates holds each of its elements once. */
  lemma {:induction false} CountInDistinct<T(!new)>(xs: seq<T>, z: T)
    requires NoDuplicates(xs)
    ensures multiset(xs)[z] == if z in xs then 1 else 0
  {
    if xs != [] {
      CountInDistinct(xs[1..], z);
      assert xs == [xs[0]] + xs[1..];
      assert xs[0] !in xs[1..];
    }
  }

  /** Two lists without duplicates that hold the same elements are rearrangements of each other. */
  lemma PermutationOfDistinct<T(!new)>(xs: seq<T>, ys: seq<T>)
    requires NoDuplicates(xs) && NoDuplicates(ys)
    requires forall z :: z in xs <==> z in ys
    ensures multiset(xs) == multiset(ys)
  {
    forall z ensures multiset(xs)[z] == multiset(ys)[z] {
      CountInDistinct(xs, z);
      CountInDistinct(ys, z);
    }
  }
}
