/**
 * A stable sort by an integer key: the model of `Array.prototype.sort`, which
 * ECMAScript 2019 and later requires to be stable. A comparator
 * `(a, b) => key(a) - key(b)` orders elements exactly as the key does.
 *
 * `SortByKey` is insertion sort on sequences; `StableSortUnique` shows that it
 * is the only sequence that is sorted and keeps every key class in input order,
 * so any stable algorithm produces the same result. `SortInPlace` is the
 * in-place array version, proved to produce `SortByKey`.
 */
module StableSort {
  import opened Sequences

  /** The elements of `s` whose key is `k`, in their order in `s`. */
  function WithKey<T>(s: seq<T>, key: T -> int, k: int): (r: seq<T>)
    ensures |r| <= |s|
  {
    if s == [] then []
    else WithKey(s[..|s| - 1], key, k) + (if key(s[|s| - 1]) == k then [s[|s| - 1]] else [])
  }

  /** Membership: `x` is in class `k` of `s` exactly when it is in `s` and its key is `k`. */
  lemma {:induction false} WithKeyMembers<T>(s: seq<T>, key: T -> int, k: int)
    ensures forall i :: 0 <= i < |WithKey(s, key, k)| ==> WithKey(s, key, k)[i] in s && key(WithKey(s, key, k)[i]) == k
    ensures forall i :: 0 <= i < |s| && key(s[i]) == k ==> s[i] in WithKey(s, key, k)
  {
    if s != [] {
      var init, last := s[..|s| - 1], s[|s| - 1];
      WithKeyMembers(init, key, k);
      assert s == init + [last];
      var w := WithKey(init, key, k);
      assert forall i :: 0 <= i < |w| ==> WithKey(s, key, k)[i] == w[i];
    }
  }

  /** Inserts `x` after every element whose key is at most `key(x)`, scanning from the right. */
  function Insert<T>(s: seq<T>, x: T, key: T -> int): (r: seq<T>)
    ensures |r| == |s| + 1
  {
    if s == [] then [x]
    else if key(s[|s| - 1]) <= key(x) then s + [x]
    else Insert(s[..|s| - 1], x, key) + [s[|s| - 1]]
  }

  /** Insertion sort: inserts the elements of `s` one by one, left to right. */
  function SortByKey<T>(s: seq<T>, key: T -> int): (r: seq<T>)
    ensures |r| == |s|
  {
    if s == [] then []
    else Insert(SortByKey(s[..|s| - 1], key), s[|s| - 1], key)
  }

  lemma {:induction false} InsertPermutes<T>(s: seq<T>, x: T, key: T -> int)
    ensures multiset(Insert(s, x, key)) == multiset(s) + multiset{x}
  {
    if s != [] && key(s[|s| - 1]) > key(x) {
      var init, last := s[..|s| - 1], s[|s| - 1];
      assert s == init + [last];
      InsertPermutes(init, x, key);
    }
  }

  /** The result is a permutation of the input. */
  lemma {:induction false} SortPermutes<T>(s: seq<T>, key: T -> int)
    ensures multiset(SortByKey(s, key)) == multiset(s)
  {
    if s != [] {
      var init, last := s[..|s| - 1], s[|s| - 1];
      assert s == init + [last];
      SortPermutes(init, key);
      InsertPermutes(SortByKey(init, key), last, key);
    }
  }

  lemma WithKeySnoc<T>(s: seq<T>, x: T, key: T -> int, k: int)
    ensures WithKey(s + [x], key, k) == WithKey(s, key, k) + (if key(x) == k then [x] else [])
  {
    assert (s + [x])[..|s|] == s;
  }

  /** Inserting `x` adds it at the end of its own key class and leaves the other classes alone. */
  lemma {:induction false} InsertStable<T>(s: seq<T>, x: T, key: T -> int, k: int)
    ensures WithKey(Insert(s, x, key), key, k) == WithKey(s, key, k) + (if key(x) == k then [x] else [])
  {
    if s == [] {
    } else if key(s[|s| - 1]) <= key(x) {
      WithKeySnoc(s, x, key, k);
    } else {
      var init, last := s[..|s| - 1], s[|s| - 1];
      assert s == init + [last];
      InsertStable(init, x, key, k);
      WithKeySnoc(Insert(init, x, key), last, key, k);
      WithKeySnoc(init, last, key, k);
    }
  }

  lemma {:induction false} InsertSorted<T>(s: seq<T>, x: T, key: T -> int)
    requires SortedBy(s, key)
    ensures SortedBy(Insert(s, x, key), key)
  {
    if s == [] {
    } else if key(s[|s| - 1]) <= key(x) {
    } else {
      var init, last := s[..|s| - 1], s[|s| - 1];
      InsertSorted(init, x, key);
      var r := Insert(init, x, key);
      InsertPermutes(init, x, key);
      forall y | y in r ensures key(y) <= key(last) {
        assert y in multiset(r);
        if y != x {
          var m :| 0 <= m < |init| && init[m] == y;
          assert s[m] == y;
        }
      }
      assert forall i :: 0 <= i < |r| ==> r[i] in r;
    }
  }

  /** The key sequence of the result never decreases. */
  lemma {:induction false} SortSorted<T>(s: seq<T>, key: T -> int)
    ensures SortedBy(SortByKey(s, key), key)
  {
    if s != [] {
      SortSorted(s[..|s| - 1], key);
      InsertSorted(SortByKey(s[..|s| - 1], key), s[|s| - 1], key);
    }
  }

  /** Stability: each key class of the result lists its elements in input order. */
  lemma {:induction false} SortStable<T>(s: seq<T>, key: T -> int, k: int)
    ensures WithKey(SortByKey(s, key), key, k) == WithKey(s, key, k)
  {
    if s != [] {
      var init, last := s[..|s| - 1], s[|s| - 1];
      assert s == init + [last];
      SortStable(init, key, k);
      InsertStable(SortByKey(init, key), last, key, k);
      WithKeySnoc(init, last, key, k);
    }
  }

  /** A projection that is injective on the input is injective on the sorted result. */
  lemma {:induction false} InsertKeepsInjective<T, U>(s: seq<T>, x: T, key: T -> int, proj: T -> U)
    requires InjectiveOn(s, proj)
    requires forall y :: y in s ==> proj(y) != proj(x)
    ensures InjectiveOn(Insert(s, x, key), proj)
  {
    if s == [] {
    } else if key(s[|s| - 1]) <= key(x) {
      var r := s + [x];
      forall i, j | 0 <= i < j < |r| ensures proj(r[i]) != proj(r[j]) {
        if j == |s| { assert r[i] in s; }
      }
    } else {
      var init, last := s[..|s| - 1], s[|s| - 1];
      assert forall y :: y in init ==> y in s;
      InsertKeepsInjective(init, x, key, proj);
      var r' := Insert(init, x, key);
      InsertPermutes(init, x, key);
      var r := r' + [last];
      forall i, j | 0 <= i < j < |r| ensures proj(r[i]) != proj(r[j]) {
        if j == |r'| {
          var y := r'[i];
          assert y in multiset(r');
          if y == x {
            assert last in s;
          } else {
            var m :| 0 <= m < |init| && init[m] == y;
            assert s[m] == y && s[|s| - 1] == last;
          }
        }
      }
    }
  }

  lemma {:induction false} SortKeepsInjective<T, U>(s: seq<T>, key: T -> int, proj: T -> U)
    requires InjectiveOn(s, proj)
    ensures InjectiveOn(SortByKey(s, key), proj)
  {
    if s != [] {
      var init, last := s[..|s| - 1], s[|s| - 1];
      SortKeepsInjective(init, key, proj);
      var sorted := SortByKey(init, key);
      SortPermutes(init, key);
      forall y | y in sorted ensures proj(y) != proj(last) {
        assert y in multiset(sorted);
        var m :| 0 <= m < |init| && init[m] == y;
        assert s[m] == y;
      }
      InsertKeepsInjective(sorted, last, key, proj);
    }
  }

  /** Two key-class filters commute. */
  lemma {:induction false} WithKeyCommute<T>(s: seq<T>, f: T -> int, a: int, g: T -> int, b: int)
    ensures WithKey(WithKey(s, f, a), g, b) == WithKey(WithKey(s, g, b), f, a)
  {
    if s != [] {
      var init, last := s[..|s| - 1], s[|s| - 1];
      WithKeyCommute(init, f, a, g, b);
      var wf, wg := WithKey(init, f, a), WithKey(init, g, b);
      if f(last) == a {
        assert WithKey(s, f, a) == wf + [last];
        WithKeySnoc(wf, last, g, b);
      } else {
        assert WithKey(s, f, a) == wf;
      }
      if g(last) == b {
        assert WithKey(s, g, b) == wg + [last];
        WithKeySnoc(wg, last, f, a);
      } else {
        assert WithKey(s, g, b) == wg;
      }
    }
  }

  /** A key class of a sorted sequence is sorted (by any key the sequence is sorted by). */
  lemma {:induction false} WithKeySorted<T>(s: seq<T>, f: T -> int, a: int, key: T -> int)
    requires SortedBy(s, key)
    ensures SortedBy(WithKey(s, f, a), key)
  {
    if s != [] {
      var init, last := s[..|s| - 1], s[|s| - 1];
      WithKeySorted(init, f, a, key);
      if f(last) == a {
        var w := WithKey(init, f, a);
        WithKeyMembers(init, f, a);
        forall y | y in w ensures key(y) <= key(last) {
          var m :| 0 <= m < |init| && init[m] == y;
          assert s[m] == y;
        }
        assert forall i :: 0 <= i < |w| ==> w[i] in w;
      }
    }
  }

  /** Two elements of one key class keep their relative order in the filtered sequence. */
  lemma {:induction false} WithKeyKeepsOrder<T>(s: seq<T>, key: T -> int, k: int, i: nat, j: nat)
    requires i < j < |s| && key(s[i]) == k && key(s[j]) == k
    ensures exists i', j' :: 0 <= i' < j' < |WithKey(s, key, k)|
                          && WithKey(s, key, k)[i'] == s[i] && WithKey(s, key, k)[j'] == s[j]
  {
    var init, last := s[..|s| - 1], s[|s| - 1];
    var w := WithKey(init, key, k);
    WithKeyMembers(init, key, k);
    if j == |s| - 1 {
      assert s[i] == init[i] && init[i] in init;
      var i' :| 0 <= i' < |w| && w[i'] == s[i];
      assert WithKey(s, key, k) == w + [last];
      assert WithKey(s, key, k)[i'] == s[i] && WithKey(s, key, k)[|w|] == s[j];
    } else {
      assert s[i] == init[i] && s[j] == init[j];
      WithKeyKeepsOrder(init, key, k, i, j);
      var i', j' :| 0 <= i' < j' < |w| && w[i'] == s[i] && w[j'] == s[j];
      assert WithKey(s, key, k)[i'] == s[i] && WithKey(s, key, k)[j'] == s[j];
    }
  }

  /** Two positions of the filtered sequence come from positions of `s` in the same order. */
  lemma {:induction false} WithKeyFromOrder<T>(s: seq<T>, key: T -> int, k: int, i: nat, j: nat)
    requires i < j < |WithKey(s, key, k)|
    ensures exists a, b :: 0 <= a < b < |s|
                        && s[a] == WithKey(s, key, k)[i] && s[b] == WithKey(s, key, k)[j]
  {
    var init, last := s[..|s| - 1], s[|s| - 1];
    var w := WithKey(init, key, k);
    var r := WithKey(s, key, k);
    WithKeyMembers(init, key, k);
    if j < |w| {
      WithKeyFromOrder(init, key, k, i, j);
      var a, b :| 0 <= a < b < |init| && init[a] == w[i] && init[b] == w[j];
      assert s[a] == r[i] && s[b] == r[j];
    } else {
      assert r[j] == last && r[i] == w[i] && w[i] in w;
      var a :| 0 <= a < |init| && init[a] == w[i];
      assert s[a] == r[i] && s[|s| - 1] == r[j];
    }
  }

  /** Removing the last element (which must carry key `k`) takes it off the end of class `k` only. */
  lemma WithKeyInit<T>(s: seq<T>, key: T -> int, k: int)
    requires s != []
    ensures WithKey(s[..|s| - 1], key, k)
         == (if key(s[|s| - 1]) == k then WithKey(s, key, k)[..|WithKey(s, key, k)| - 1] else WithKey(s, key, k))
  {
  }

  /** The last element of a non-empty class of `s` sits at some position of `s`. */
  lemma {:induction false} WithKeyLastIndex<T>(s: seq<T>, key: T -> int, k: int) returns (m: nat)
    requires WithKey(s, key, k) != []
    ensures m < |s| && s[m] == WithKey(s, key, k)[|WithKey(s, key, k)| - 1]
  {
    var init, last := s[..|s| - 1], s[|s| - 1];
    if key(last) == k {
      m := |s| - 1;
    } else {
      m := WithKeyLastIndex(init, key, k);
      assert s[m] == init[m];
    }
  }

  /** Two sequences with the same class of `r1`'s last element: that element occurs in `r2`. */
  lemma LastClassMateIndex<T>(r1: seq<T>, r2: seq<T>, key: T -> int) returns (m: nat)
    requires r1 != []
    requires WithKey(r1, key, key(r1[|r1| - 1])) == WithKey(r2, key, key(r1[|r1| - 1]))
    ensures m < |r2| && r2[m] == r1[|r1| - 1]
  {
    var K := key(r1[|r1| - 1]);
    assert WithKey(r1, key, K) == WithKey(r1[..|r1| - 1], key, K) + [r1[|r1| - 1]];
    m := WithKeyLastIndex(r2, key, K);
  }

  /** If the last element of `r1` has a class-mate in a sorted `r2`, its key is at most that of `r2`'s last. */
  lemma LastKeyBounded<T>(r1: seq<T>, r2: seq<T>, key: T -> int)
    requires r1 != [] && r2 != [] && SortedBy(r2, key)
    requires WithKey(r1, key, key(r1[|r1| - 1])) == WithKey(r2, key, key(r1[|r1| - 1]))
    ensures key(r1[|r1| - 1]) <= key(r2[|r2| - 1])
  {
    var m := LastClassMateIndex(r1, r2, key);
    if m < |r2| - 1 {
      assert key(r2[m]) <= key(r2[|r2| - 1]);
    }
  }

  lemma FirstClassNonEmpty<T>(s: seq<T>, key: T -> int)
    requires s != []
    ensures WithKey(s, key, key(s[0])) != []
  {
    WithKeyMembers(s, key, key(s[0]));
    assert s[0] in WithKey(s, key, key(s[0]));
  }

  /**
   * Uniqueness: two sorted sequences whose key classes agree are equal. Hence
   * every stable sort of `s` by `key` equals `SortByKey(s, key)`.
   */
  lemma {:induction false} SortedWithSameClassesEqual<T>(r1: seq<T>, r2: seq<T>, key: T -> int)
    requires SortedBy(r1, key) && SortedBy(r2, key)
    requires forall k :: WithKey(r1, key, k) == WithKey(r2, key, k)
    ensures r1 == r2
    decreases |r1| + |r2|
  {
    if r1 == [] {
      if r2 != [] {
        FirstClassNonEmpty(r2, key);
      }
    } else if r2 == [] {
      FirstClassNonEmpty(r1, key);
    } else {
      var i1, l1 := r1[..|r1| - 1], r1[|r1| - 1];
      var i2, l2 := r2[..|r2| - 1], r2[|r2| - 1];
      LastKeyBounded(r1, r2, key);
      LastKeyBounded(r2, r1, key);
      var K := key(l1);
      var w1, w2 := WithKey(i1, key, K), WithKey(i2, key, K);
      assert WithKey(r1, key, K) == w1 + [l1];
      assert WithKey(r2, key, K) == w2 + [l2];
      assert WithKey(r1, key, K) == WithKey(r2, key, K);
      assert (w1 + [l1])[|w1|] == l1 && (w2 + [l2])[|w2|] == l2;
      assert l1 == l2;
      forall k ensures WithKey(i1, key, k) == WithKey(i2, key, k) {
        WithKeyInit(r1, key, k);
        WithKeyInit(r2, key, k);
      }
      SortedWithSameClassesEqual(i1, i2, key);
      assert r1 == i1 + [l1] && r2 == i2 + [l2];
    }
  }

  /** Any sorted, stable arrangement of `s` is `SortByKey(s, key)`. */
  lemma StableSortUnique<T>(s: seq<T>, r: seq<T>, key: T -> int)
    requires SortedBy(r, key)
    requires forall k :: WithKey(r, key, k) == WithKey(s, key, k)
    ensures r == SortByKey(s, key)
  {
    SortSorted(s, key);
    forall k ensures WithKey(r, key, k) == WithKey(SortByKey(s, key), key, k) {
      SortStable(s, key, k);
    }
    SortedWithSameClassesEqual(r, SortByKey(s, key), key);
  }

  /** `Insert` of `x` into `s` when `j` is the first position whose key exceeds `key(x)`. */
  lemma {:induction false} InsertAt<T>(s: seq<T>, x: T, key: T -> int, j: nat)
    requires j <= |s|
    requires j > 0 ==> key(s[j - 1]) <= key(x)
    requires forall m :: j <= m < |s| ==> key(s[m]) > key(x)
    ensures Insert(s, x, key) == s[..j] + [x] + s[j..]
    decreases |s|
  {
    if j < |s| {
      var init, last := s[..|s| - 1], s[|s| - 1];
      assert key(last) > key(x);
      assert Insert(s, x, key) == Insert(init, x, key) + [last];
      InsertAt(init, x, key, j);
      assert init[..j] == s[..j];
      assert s[j..] == init[j..] + [last];
    } else {
      assert s[..j] == s;
    }
  }

  /**
   * Moves `a[i]` left past every element of the sorted prefix `a[..i]` whose
   * key is larger, shifting those one slot right.
   */
  method InsertInPlace<T>(a: array<T>, i: nat, key: T -> int)
    requires i < a.Length
    modifies a
    ensures a[..i + 1] == Insert(old(a[..i]), old(a[i]), key)
    ensures a[i + 1..] == old(a[i + 1..])
  {
    ghost var sorted := a[..i];
    var x := a[i];
    var j := i;
    while j > 0 && key(a[j - 1]) > key(x)
      invariant 0 <= j <= i
      invariant forall m :: 0 <= m < j ==> a[m] == sorted[m]
      invariant forall m :: j < m <= i ==> a[m] == sorted[m - 1]
      invariant forall m :: i < m < a.Length ==> a[m] == old(a[m])
      invariant forall m :: j <= m < i ==> key(sorted[m]) > key(x)
    {
      a[j] := a[j - 1];
      j := j - 1;
    }
    a[j] := x;
    InsertAt(sorted, x, key, j);
    assert a[..i + 1] == sorted[..j] + [x] + sorted[j..];
    assert a[i + 1..] == old(a[i + 1..]);
  }

  /** Sorts `a` in place by insertion, one element at a time from the left. */
  method SortInPlace<T>(a: array<T>, key: T -> int)
    modifies a
    ensures a[..] == SortByKey(old(a[..]), key)
  {
    ghost var input := a[..];
    var i := 0;
    while i < a.Length
      invariant 0 <= i <= a.Length
      invariant a[..i] == SortByKey(input[..i], key)
      invariant a[i..] == input[i..]
    {
      InsertInPlace(a, i, key);
      assert input[..i + 1][..i] == input[..i];
      i := i + 1;
    }
    assert input[..a.Length] == input;
  }
}
