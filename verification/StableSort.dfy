/**
 The contract of Rust's `slice::sort_by_key`: a sort that keeps elements with
 equal keys in their original order.

 `IsStableSort` states the contract, `Unique` shows that the contract determines
 the result, and `Sort` is one function that meets it.
 */
module StableSort {

  /** The elements of `s` whose key is `k`, in the order they have in `s`. */
  function WithKey<T>(s: seq<T>, key: T -> int, k: int): seq<T> {
    if s == [] then []
    else (if key(s[0]) == k then [s[0]] else []) + WithKey(s[1..], key, k)
  }

  ghost predicate Sorted<T>(s: seq<T>, key: T -> int) {
    forall i, j :: 0 <= i < j < |s| ==> key(s[i]) <= key(s[j])
  }

  ghost predicate SameByKey<T>(a: seq<T>, b: seq<T>, key: T -> int) {
    forall k :: WithKey(a, key, k) == WithKey(b, key, k)
  }

  ghost predicate IsStableSort<T>(out: seq<T>, s: seq<T>, key: T -> int) {
    Sorted(out, key) && SameByKey(out, s, key)
  }

  ghost predicate DistinctKeys<T>(s: seq<T>, key: T -> int) {
    forall i, j :: 0 <= i < j < |s| ==> key(s[i]) != key(s[j])
  }

  function Insert<T>(x: T, s: seq<T>, key: T -> int): seq<T> {
    if s == [] || key(x) <= key(s[0]) then [x] + s
    else [s[0]] + Insert(x, s[1..], key)
  }

  function Sort<T>(s: seq<T>, key: T -> int): seq<T> {
    if s == [] then [] else Insert(s[0], Sort(s[1..], key), key)
  }

  lemma {:induction false} InsertPermutes<T>(x: T, s: seq<T>, key: T -> int)
    ensures multiset(Insert(x, s, key)) == multiset{x} + multiset(s)
    ensures |Insert(x, s, key)| == |s| + 1
  {
    if s == [] || key(x) <= key(s[0]) {
    } else {
      InsertPermutes(x, s[1..], key);
      assert s == [s[0]] + s[1..];
    }
  }

  lemma {:induction false} InsertSorted<T>(x: T, s: seq<T>, key: T -> int)
    requires Sorted(s, key)
    ensures Sorted(Insert(x, s, key), key)
  {
    if s == [] || key(x) <= key(s[0]) {
    } else {
      var rest := Insert(x, s[1..], key);
      InsertSorted(x, s[1..], key);
      InsertPermutes(x, s[1..], key);
      forall i | 0 <= i < |rest|
        ensures key(s[0]) <= key(rest[i])
      {
        assert rest[i] in multiset(rest);
        assert rest[i] == x || rest[i] in s[1..];
      }
    }
  }

  lemma {:induction false} InsertKeepsOrder<T>(x: T, s: seq<T>, key: T -> int, k: int)
    requires Sorted(s, key)
    ensures WithKey(Insert(x, s, key), key, k) == WithKey([x] + s, key, k)
  {
    if s == [] || key(x) <= key(s[0]) {
    } else {
      InsertKeepsOrder(x, s[1..], key, k);
      var r := Insert(x, s, key);
      assert r[1..] == Insert(x, s[1..], key);
      assert ([x] + s)[1..] == s && ([x] + s[1..])[1..] == s[1..];
    }
  }

  /** `Sort` meets the contract and permutes its input. */
  lemma {:induction false} SortIsStable<T>(s: seq<T>, key: T -> int)
    ensures IsStableSort(Sort(s, key), s, key)
    ensures multiset(Sort(s, key)) == multiset(s)
    ensures |Sort(s, key)| == |s|
  {
    if s != [] {
      var rest := Sort(s[1..], key);
      SortIsStable(s[1..], key);
      InsertSorted(s[0], rest, key);
      InsertPermutes(s[0], rest, key);
      assert s == [s[0]] + s[1..];
      forall k
        ensures WithKey(Sort(s, key), key, k) == WithKey(s, key, k)
      {
        InsertKeepsOrder(s[0], rest, key, k);
        assert ([s[0]] + rest)[1..] == rest;
      }
    }
  }

  lemma {:induction false} WithKeyMember<T>(s: seq<T>, key: T -> int, i: nat)
    requires i < |s|
    ensures WithKey(s, key, key(s[i])) != []
  {
    if i != 0 {
      assert s[i] == s[1..][i - 1];
      WithKeyMember(s[1..], key, i - 1);
    }
  }

  lemma {:induction false} WithKeySource<T>(s: seq<T>, key: T -> int, k: int)
    requires WithKey(s, key, k) != []
    ensures exists i :: 0 <= i < |s| && key(s[i]) == k
  {
    if key(s[0]) != k {
      WithKeySource(s[1..], key, k);
      var i :| 0 <= i < |s[1..]| && key(s[1..][i]) == k;
      assert key(s[i + 1]) == k;
    }
  }

  lemma FirstKeyBound<T>(a: seq<T>, b: seq<T>, key: T -> int)
    requires Sorted(a, key) && SameByKey(a, b, key) && b != []
    ensures a != [] && key(a[0]) <= key(b[0])
  {
    WithKeyMember(b, key, 0);
    assert WithKey(a, key, key(b[0])) != [];
    WithKeySource(a, key, key(b[0]));
  }

  /** Sorted sequences with the same per-key subsequences are equal. */
  lemma {:induction false} Unique<T>(a: seq<T>, b: seq<T>, key: T -> int)
    requires Sorted(a, key) && Sorted(b, key) && SameByKey(a, b, key)
    ensures a == b
  {
    if a == [] {
      if b != [] { FirstKeyBound(a, b, key); }
    } else {
      FirstKeyBound(b, a, key);
      FirstKeyBound(a, b, key);
      var k := key(a[0]);
      assert WithKey(a, key, k)[0] == a[0] && WithKey(b, key, k)[0] == b[0];
      assert WithKey(a, key, k) == WithKey(b, key, k);
      forall k' ensures WithKey(a[1..], key, k') == WithKey(b[1..], key, k') {
        assert WithKey(a, key, k') == WithKey(b, key, k');
        if k' == k {
          assert WithKey(a, key, k')[1..] == WithKey(a[1..], key, k');
          assert WithKey(b, key, k')[1..] == WithKey(b[1..], key, k');
        } else {
          assert key(a[0]) != k' && key(b[0]) != k';
          assert WithKey(a, key, k') == WithKey(a[1..], key, k');
          assert WithKey(b, key, k') == WithKey(b[1..], key, k');
        }
      }
      Unique(a[1..], b[1..], key);
    }
  }

  /** Sorting a sequence that is already sorted changes nothing. */
  lemma SortedIsFixed<T>(s: seq<T>, key: T -> int)
    requires Sorted(s, key)
    ensures Sort(s, key) == s
  {
    SortIsStable(s, key);
    Unique(Sort(s, key), s, key);
  }

  /** Two inputs sort to the same output exactly when they agree key by key. */
  lemma SortEqualIff<T>(a: seq<T>, b: seq<T>, key: T -> int)
    ensures Sort(a, key) == Sort(b, key) <==> SameByKey(a, b, key)
  {
    SortIsStable(a, key);
    SortIsStable(b, key);
    if SameByKey(a, b, key) {
      forall k ensures WithKey(Sort(a, key), key, k) == WithKey(Sort(b, key), key, k) {
        assert WithKey(a, key, k) == WithKey(b, key, k);
      }
      Unique(Sort(a, key), Sort(b, key), key);
    } else {
      var k :| WithKey(a, key, k) != WithKey(b, key, k);
      assert WithKey(Sort(a, key), key, k) != WithKey(Sort(b, key), key, k);
    }
  }

  lemma {:induction false} WithKeyAbsent<T>(s: seq<T>, key: T -> int, k: int)
    requires forall i :: 0 <= i < |s| ==> key(s[i]) != k
    ensures WithKey(s, key, k) == []
  {
    if s != [] {
      WithKeyAbsent(s[1..], key, k);
    }
  }

  lemma {:induction false} WithKeyOfDistinct<T>(s: seq<T>, key: T -> int, i: nat)
    requires DistinctKeys(s, key) && i < |s|
    ensures WithKey(s, key, key(s[i])) == [s[i]]
  {
    if i == 0 {
      WithKeyAbsent(s[1..], key, key(s[0]));
    } else {
      assert s[i] == s[1..][i - 1];
      WithKeyOfDistinct(s[1..], key, i - 1);
    }
  }

  /** With distinct keys, the sort does not depend on the input order. */
  lemma SortIgnoresOrder<T>(a: seq<T>, b: seq<T>, key: T -> int)
    requires DistinctKeys(a, key) && DistinctKeys(b, key)
    requires multiset(a) == multiset(b)
    ensures Sort(a, key) == Sort(b, key)
  {
    forall k ensures WithKey(a, key, k) == WithKey(b, key, k) {
      if i :| 0 <= i < |a| && key(a[i]) == k {
        assert a[i] in multiset(a);
        var j :| 0 <= j < |b| && b[j] == a[i];
        WithKeyOfDistinct(a, key, i);
        WithKeyOfDistinct(b, key, j);
      } else {
        forall j | 0 <= j < |b| ensures key(b[j]) != k {
          assert b[j] in multiset(b);
          assert b[j] in a;
        }
        WithKeyAbsent(a, key, k);
        WithKeyAbsent(b, key, k);
      }
    }
    SortEqualIff(a, b, key);
  }
}
