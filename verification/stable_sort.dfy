/** A stable comparison sort over a sequence, specified declaratively:
    the result is a permutation of the input, ordered by the comparator on
    each element's key, and elements with equal keys keep their input order.

    The comparator follows the JavaScript `Array.prototype.sort` convention:
    a negative result puts the first argument first, a positive one the second,
    and zero means "equal". */
module StableSort {

  /** A comparator is consistent on `ks` when it returns zero exactly on equal
      keys, swapping the arguments swaps the sign, and "before" is transitive. */
  ghost predicate Consistent<K>(cmp: (K, K) -> int, ks: set<K>) {
    && (forall a, b | a in ks && b in ks :: cmp(a, b) == 0 <==> a == b)
    && (forall a, b | a in ks && b in ks :: cmp(a, b) < 0 <==> cmp(b, a) > 0)
    && (forall a, b, c | a in ks && b in ks && c in ks :: cmp(a, b) < 0 && cmp(b, c) < 0 ==> cmp(a, c) < 0)
  }

  /** Every earlier element compares at most equal to every later one. */
  ghost predicate SortedBy<T, K>(s: seq<T>, key: T -> K, cmp: (K, K) -> int) {
    forall i, j | 0 <= i < j < |s| :: cmp(key(s[i]), key(s[j])) <= 0
  }

  /** The elements of `s` whose key is `k`, in their order in `s`. */
  function WithKey<T, K(==)>(s: seq<T>, key: T -> K, k: K): (r: seq<T>)
    ensures |r| <= |s|
    ensures forall x | x in r :: x in s && key(x) == k
  {
    if |s| == 0 then []
    else (if key(s[0]) == k then [s[0]] else []) + WithKey(s[1..], key, k)
  }

  /** Places `x` before the first element of `s` that does not compare below it. */
  function Insert<T, K>(x: T, s: seq<T>, key: T -> K, cmp: (K, K) -> int): (r: seq<T>)
    ensures multiset(r) == multiset(s) + multiset{x}
  {
    if |s| == 0 then [x]
    else if cmp(key(x), key(s[0])) <= 0 then [x] + s
    else
      assert s == [s[0]] + s[1..];
      [s[0]] + Insert(x, s[1..], key, cmp)
  }

  /** Insertion sort; the head of the input is inserted into the sorted tail. */
  function Sort<T, K>(s: seq<T>, key: T -> K, cmp: (K, K) -> int): (r: seq<T>)
    ensures multiset(r) == multiset(s)
  {
    if |s| == 0 then []
    else
      assert s == [s[0]] + s[1..];
      Insert(s[0], Sort(s[1..], key, cmp), key, cmp)
  }

  /** Chaining "at most equal" under a consistent comparator. */
  lemma AtMostTrans<K>(cmp: (K, K) -> int, ks: set<K>, a: K, b: K, c: K)
    requires Consistent(cmp, ks)
    requires a in ks && b in ks && c in ks
    requires cmp(a, b) <= 0 && cmp(b, c) <= 0
    ensures cmp(a, c) <= 0
  {
    if cmp(a, b) == 0 {
      assert a == b;
    } else if cmp(b, c) == 0 {
      assert b == c;
    }
  }

  /** Every element of `s` has its key in `ks`. */
  ghost predicate KeysIn<T, K>(s: seq<T>, key: T -> K, ks: set<K>) {
    forall x | x in s :: key(x) in ks
  }

  lemma TailSorted<T, K>(s: seq<T>, key: T -> K, cmp: (K, K) -> int)
    requires |s| > 0 && SortedBy(s, key, cmp)
    ensures SortedBy(s[1..], key, cmp)
  {
    var t := s[1..];
    forall i, j | 0 <= i < j < |t| ensures cmp(key(t[i]), key(t[j])) <= 0 {
      assert t[i] == s[i + 1] && t[j] == s[j + 1];
    }
  }

  /** `x` goes in front: it is at most equal to the head, hence to everything. */
  lemma InsertSortedFront<T, K>(x: T, s: seq<T>, key: T -> K, cmp: (K, K) -> int, ks: set<K>)
    requires Consistent(cmp, ks) && KeysIn(s, key, ks) && key(x) in ks
    requires SortedBy(s, key, cmp)
    requires |s| > 0 && cmp(key(x), key(s[0])) <= 0
    ensures SortedBy([x] + s, key, cmp)
  {
    var r := [x] + s;
    forall i, j | 0 <= i < j < |r|
      ensures cmp(key(r[i]), key(r[j])) <= 0
    {
      if i == 0 && j > 1 {
        assert s[0] in s && s[j - 1] in s;
        AtMostTrans(cmp, ks, key(x), key(s[0]), key(s[j - 1]));
      } else if i > 0 {
        assert r[i] == s[i - 1] && r[j] == s[j - 1];
      }
    }
  }

  /** The head stays in front: it is below `x` and at most equal to the rest. */
  lemma InsertSortedPass<T, K>(x: T, s: seq<T>, u: seq<T>, key: T -> K, cmp: (K, K) -> int, ks: set<K>)
    requires Consistent(cmp, ks) && KeysIn(s, key, ks) && key(x) in ks
    requires SortedBy(s, key, cmp)
    requires |s| > 0 && cmp(key(x), key(s[0])) > 0
    requires multiset(u) == multiset(s[1..]) + multiset{x}
    requires SortedBy(u, key, cmp)
    ensures SortedBy([s[0]] + u, key, cmp)
  {
    var r := [s[0]] + u;
    assert s[0] in s;
    assert cmp(key(s[0]), key(x)) < 0;
    forall i, j | 0 <= i < j < |r|
      ensures cmp(key(r[i]), key(r[j])) <= 0
    {
      if i == 0 {
        var y := r[j];
        assert y == u[j - 1];
        assert y in multiset(u);
        if y != x {
          assert y in multiset(s[1..]);
          var k :| 0 <= k < |s[1..]| && s[1..][k] == y;
          assert s[k + 1] == y;
        }
      } else {
        assert r[i] == u[i - 1] && r[j] == u[j - 1];
      }
    }
  }

  lemma {:induction false} InsertSorted<T, K>(x: T, s: seq<T>, key: T -> K, cmp: (K, K) -> int, ks: set<K>)
    requires Consistent(cmp, ks) && KeysIn(s, key, ks) && key(x) in ks
    requires SortedBy(s, key, cmp)
    ensures SortedBy(Insert(x, s, key, cmp), key, cmp)
  {
    if |s| == 0 {
    } else if cmp(key(x), key(s[0])) <= 0 {
      InsertSortedFront(x, s, key, cmp, ks);
    } else {
      var t := s[1..];
      assert KeysIn(t, key, ks) by {
        forall y | y in t ensures key(y) in ks { assert y in s; }
      }
      TailSorted(s, key, cmp);
      InsertSorted(x, t, key, cmp, ks);
      InsertSortedPass(x, s, Insert(x, t, key, cmp), key, cmp, ks);
    }
  }

  /** The sorted view is ordered by the comparator whenever the comparator is
      consistent on the keys that occur. */
  lemma {:induction false} SortSorted<T, K>(s: seq<T>, key: T -> K, cmp: (K, K) -> int, ks: set<K>)
    requires Consistent(cmp, ks) && KeysIn(s, key, ks)
    ensures SortedBy(Sort(s, key, cmp), key, cmp)
  {
    if |s| > 0 {
      var t := s[1..];
      assert KeysIn(t, key, ks) by {
        forall y | y in t ensures key(y) in ks { assert y in s; }
      }
      SortSorted(t, key, cmp, ks);
      var st := Sort(t, key, cmp);
      assert KeysIn(st, key, ks) by {
        forall y | y in st ensures key(y) in ks {
          assert y in multiset(st);
          assert y in t;
        }
      }
      assert s[0] in s;
      InsertSorted(s[0], st, key, cmp, ks);
    }
  }

  lemma WithKeyCons<T, K>(x: T, s: seq<T>, key: T -> K, k: K)
    ensures WithKey([x] + s, key, k) == (if key(x) == k then [x] else []) + WithKey(s, key, k)
  {
    assert ([x] + s)[0] == x;
    assert ([x] + s)[1..] == s;
  }

  lemma {:induction false} WithKeyConcat<T, K>(a: seq<T>, b: seq<T>, key: T -> K, k: K)
    ensures WithKey(a + b, key, k) == WithKey(a, key, k) + WithKey(b, key, k)
  {
    if |a| > 0 {
      assert a == [a[0]] + a[1..];
      assert a + b == [a[0]] + (a[1..] + b);
      WithKeyCons(a[0], a[1..] + b, key, k);
      WithKeyCons(a[0], a[1..], key, k);
      WithKeyConcat(a[1..], b, key, k);
    } else {
      assert a + b == b;
    }
  }

  /** Inserting `x` passes over only elements with a different key, so among
      the elements with any one key the insertion is at the front or nowhere. */
  lemma {:induction false} InsertWithKey<T, K>(x: T, s: seq<T>, key: T -> K, cmp: (K, K) -> int, k: K)
    requires cmp(key(x), key(x)) == 0
    ensures WithKey(Insert(x, s, key, cmp), key, k)
            == (if key(x) == k then [x] else []) + WithKey(s, key, k)
  {
    if |s| == 0 {
      WithKeyCons(x, [], key, k);
    } else if cmp(key(x), key(s[0])) <= 0 {
      WithKeyCons(x, s, key, k);
    } else {
      var t := s[1..];
      var u := Insert(x, t, key, cmp);
      assert Insert(x, s, key, cmp) == [s[0]] + u;
      assert s == [s[0]] + t;
      InsertWithKey(x, t, key, cmp, k);
      WithKeyCons(s[0], u, key, k);
      WithKeyCons(s[0], t, key, k);
      if key(x) == k {
        assert key(s[0]) != k;
        assert WithKey([s[0]] + u, key, k) == WithKey(u, key, k);
        assert WithKey(s, key, k) == WithKey(t, key, k);
      } else {
        assert WithKey(u, key, k) == WithKey(t, key, k);
      }
    }
  }

  /** Stability: for every key, the elements carrying it appear in the sorted
      view in exactly their input order. */
  lemma {:induction false} SortStable<T, K>(s: seq<T>, key: T -> K, cmp: (K, K) -> int, k: K)
    requires forall x | x in s :: cmp(key(x), key(x)) == 0
    ensures WithKey(Sort(s, key, cmp), key, k) == WithKey(s, key, k)
  {
    if |s| > 0 {
      var t := s[1..];
      assert forall x | x in t :: x in s;
      SortStable(t, key, cmp, k);
      assert s[0] in s;
      InsertWithKey(s[0], Sort(t, key, cmp), key, cmp, k);
      assert s == [s[0]] + t;
      WithKeyCons(s[0], t, key, k);
    }
  }
}
