/** Facts about sorting three elements under an abstract strict total order,
    kept apart from the concrete edge order so that the proofs do not see
    the real-number comparisons underneath it. */
module Orders {

  ghost predicate StrictTotalOrder<T(!new)>(less: (T, T) -> bool)
  {
    && (forall a :: !less(a, a))
    && (forall a, b, c :: less(a, b) && less(b, c) ==> less(a, c))
    && (forall a, b :: a != b ==> less(a, b) || less(b, a))
  }

  predicate SortedBy<T>(less: (T, T) -> bool, s: seq<T>)
  {
    forall i :: 0 < i < |s| ==> !less(s[i], s[i - 1])
  }

  /** Inserts `c` into the sorted pair [x, y]. */
  function InsertBy<T(!new)>(less: (T, T) -> bool, c: T, x: T, y: T): (r: seq<T>)
    requires StrictTotalOrder(less)
    requires !less(y, x)
    ensures |r| == 3
    ensures multiset(r) == multiset{c, x, y}
    ensures SortedBy(less, r)
  {
    if less(c, x) then
      assert !less(x, c);
      Sorted3(less, c, x, y);
      [c, x, y]
    else if less(c, y) then
      assert !less(y, c);
      Sorted3(less, x, c, y);
      assert multiset{x, c, y} == multiset{c, x, y};
      [x, c, y]
    else
      Sorted3(less, x, y, c);
      assert multiset{x, y, c} == multiset{c, x, y};
      [x, y, c]
  }

  lemma Sorted3<T>(less: (T, T) -> bool, a: T, b: T, c: T)
    requires !less(b, a) && !less(c, b)
    ensures SortedBy(less, [a, b, c])
  {
  }

  /** An insertion sort of three elements: the result is sorted and a
      permutation of the arguments. */
  function Sort3By<T(!new)>(less: (T, T) -> bool, a: T, b: T, c: T): (r: seq<T>)
    requires StrictTotalOrder(less)
    ensures |r| == 3
    ensures multiset(r) == multiset{a, b, c}
    ensures SortedBy(less, r)
  {
    assert multiset{c, b, a} == multiset{a, b, c} == multiset{c, a, b};
    if less(b, a) then
      assert !less(a, b);
      InsertBy(less, c, b, a)
    else
      InsertBy(less, c, a, b)
  }

  /** A sequence of three with the same elements as a, b, c. */
  lemma SameElements<T>(r: seq<T>, a: T, b: T, c: T)
    requires |r| == 3 && multiset(r) == multiset{a, b, c}
    ensures {r[0], r[1], r[2]} == {a, b, c}
  {
    assert r[0] in multiset(r) && r[1] in multiset(r) && r[2] in multiset(r);
    assert a in multiset(r) && b in multiset(r) && c in multiset(r);
  }

  /** A sorted sequence of three starts with an element no other element
      comes before. */
  lemma SortedFirstIsLeast<T(!new)>(less: (T, T) -> bool, s: seq<T>, x: T)
    requires StrictTotalOrder(less)
    requires |s| == 3 && SortedBy(less, s)
    requires x in s
    ensures !less(x, s[0])
  {
    assert !less(s[1], s[0]) && !less(s[2], s[1]);
  }

  /** ... and ends with an element that comes before no other element. */
  lemma SortedLastIsGreatest<T(!new)>(less: (T, T) -> bool, s: seq<T>, x: T)
    requires StrictTotalOrder(less)
    requires |s| == 3 && SortedBy(less, s)
    requires x in s
    ensures !less(s[2], x)
  {
    assert !less(s[1], s[0]) && !less(s[2], s[1]);
  }

  /** Sorting three elements under a strict total order has one result:
      two sorted sequences holding the same elements are equal. */
  lemma SortedUnique<T(!new)>(less: (T, T) -> bool, r: seq<T>, s: seq<T>)
    requires StrictTotalOrder(less)
    requires |r| == 3 && |s| == 3 && SortedBy(less, r) && SortedBy(less, s)
    requires multiset(r) == multiset(s)
    ensures r == s
  {
    assert r == [r[0], r[1], r[2]] && s == [s[0], s[1], s[2]];
    var m := multiset{r[0], r[1], r[2]};
    assert multiset(r) == m && multiset(s) == multiset{s[0], s[1], s[2]};
    assert r[0] in s && r[2] in s && s[0] in r && s[2] in r;
    SortedFirstIsLeast(less, r, s[0]);
    SortedFirstIsLeast(less, s, r[0]);
    SortedLastIsGreatest(less, r, s[2]);
    SortedLastIsGreatest(less, s, r[2]);
    assert r[0] == s[0] && r[2] == s[2];
    assert m[r[1]] == multiset{s[0], s[1], s[2]}[r[1]];
  }

  /** The result of Sort3By does not depend on the order of the arguments. */
  lemma Sort3ByPermutations<T(!new)>(less: (T, T) -> bool, a: T, b: T, c: T)
    requires StrictTotalOrder(less)
    ensures Sort3By(less, a, b, c) == Sort3By(less, b, a, c) == Sort3By(less, a, c, b)
            == Sort3By(less, b, c, a) == Sort3By(less, c, a, b) == Sort3By(less, c, b, a)
  {
    var r := Sort3By(less, a, b, c);
    SortedUnique(less, r, Sort3By(less, b, a, c));
    SortedUnique(less, r, Sort3By(less, a, c, b));
    SortedUnique(less, r, Sort3By(less, b, c, a));
    SortedUnique(less, r, Sort3By(less, c, a, b));
    SortedUnique(less, r, Sort3By(less, c, b, a));
  }

  /** Two strictly increasing triples over the same set are equal. */
  lemma IncreasingUnique<T(!new)>(less: (T, T) -> bool, a1: T, a2: T, a3: T, b1: T, b2: T, b3: T)
    requires StrictTotalOrder(less)
    requires less(a1, a2) && less(a2, a3) && less(b1, b2) && less(b2, b3)
    requires {a1, a2, a3} == {b1, b2, b3}
    ensures a1 == b1 && a2 == b2 && a3 == b3
  {
    assert a1 in {b1, b2, b3} && b1 in {a1, a2, a3};
    assert a3 in {b1, b2, b3} && b3 in {a1, a2, a3};
    assert a1 == b1 && a3 == b3;
    assert a2 in {b1, b2, b3};
  }
}
