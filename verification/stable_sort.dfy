/**
 * A stable ascending sort by a string key, the behaviour of
 * `Enumerable.OrderBy(keySelector)` followed by `ToList()`, modelled as an
 * insertion sort on sequences.
 */
module StableSort {
  import opened TextOrder

  /** The elements of `s` whose key is `k`, in the order they have in `s`. */
  function WithKey<T>(s: seq<T>, key: T -> string, k: string): (r: seq<T>)
    ensures |r| <= |s|
    ensures forall i :: 0 <= i < |r| ==> r[i] in s && key(r[i]) == k
    ensures forall i :: 0 <= i < |s| && key(s[i]) == k ==> s[i] in r
  {
    if |s| == 0 then []
    else if key(s[0]) == k then [s[0]] + WithKey(s[1..], key, k)
    else WithKey(s[1..], key, k)
  }

  /**
   * Taking a key class of a concatenation takes it of each part and keeps
   * the parts in order.
   */
  lemma {:induction false} WithKeyAppend<T>(x: seq<T>, y: seq<T>, key: T -> string, k: string)
    ensures WithKey(x + y, key, k) == WithKey(x, key, k) + WithKey(y, key, k)
    decreases |x|
  {
    if |x| > 0 {
      WithKeyAppend(x[1..], y, key, k);
      assert (x + y)[1..] == x[1..] + y;
    } else {
      assert x + y == y;
    }
  }

  /** A single element is in the key class of its own key and no other. */
  lemma WithKeySingle<T>(x: T, key: T -> string, k: string)
    ensures WithKey([x], key, k) == if key(x) == k then [x] else []
  {
    assert [x][1..] == [];
  }

  /** Every element's key is at most the key of every later element. */
  ghost predicate SortedBy<T>(s: seq<T>, key: T -> string) {
    forall i, j :: 0 <= i < j < |s| ==> LexLe(key(s[i]), key(s[j]))
  }

  /**
   * `r` keeps the elements of `s` that share a key in the relative order
   * they have in `s`, and holds no other element.
   */
  ghost predicate SameKeyClasses<T>(r: seq<T>, s: seq<T>, key: T -> string) {
    forall k :: WithKey(r, key, k) == WithKey(s, key, k)
  }

  /**
   * Places `x` before the first element of `s` whose key is not smaller,
   * that is, before every element with an equal key.
   */
  function Insert<T>(x: T, s: seq<T>, key: T -> string): (r: seq<T>)
    ensures multiset(r) == multiset(s) + multiset{x}
  {
    if |s| == 0 then [x]
    else if LexLe(key(x), key(s[0])) then [x] + s
    else
      assert s == [s[0]] + s[1..];
      [s[0]] + Insert(x, s[1..], key)
  }

  /**
   * Sorts `s` ascending by `key`, keeping elements with equal keys in input
   * order.
   */
  function OrderBy<T>(s: seq<T>, key: T -> string): (r: seq<T>)
    ensures multiset(r) == multiset(s)
    ensures SortedBy(r, key)
    ensures SameKeyClasses(r, s, key)
  {
    if |s| == 0 then []
    else
      var rest := OrderBy(s[1..], key);
      InsertSorted(s[0], rest, key);
      InsertKeepsKeyClasses(s[0], rest, key);
      assert s == [s[0]] + s[1..];
      Insert(s[0], rest, key)
  }

  lemma {:induction false} InsertSorted<T>(x: T, s: seq<T>, key: T -> string)
    requires SortedBy(s, key)
    ensures SortedBy(Insert(x, s, key), key)
    decreases |s|
  {
    if |s| == 0 {
    } else if LexLe(key(x), key(s[0])) {
      var r := [x] + s;
      forall i, j | 0 <= i < j < |r|
        ensures LexLe(key(r[i]), key(r[j]))
      {
        if i == 0 && j > 1 {
          LexLeTransitive(key(x), key(s[0]), key(s[j - 1]));
        }
      }
    } else {
      LexLeTotal(key(x), key(s[0]));
      var rest := Insert(x, s[1..], key);
      InsertSorted(x, s[1..], key);
      var r := [s[0]] + rest;
      forall i, j | 0 <= i < j < |r|
        ensures LexLe(key(r[i]), key(r[j]))
      {
        if i == 0 {
          var y := rest[j - 1];
          assert y in multiset(rest);
          if y != x {
            assert y in multiset(s[1..]);
            var m :| 0 <= m < |s[1..]| && s[1..][m] == y;
            assert s[m + 1] == y;
          }
        }
      }
    }
  }

  /** Inserting `x` only adds `x` to its own key class, at its front. */
  lemma {:induction false} InsertKeepsKeyClasses<T>(x: T, s: seq<T>, key: T -> string)
    ensures forall k :: WithKey(Insert(x, s, key), key, k)
                        == if key(x) == k then [x] + WithKey(s, key, k) else WithKey(s, key, k)
    decreases |s|
  {
    if |s| == 0 {
    } else if LexLe(key(x), key(s[0])) {
      assert ([x] + s)[1..] == s;
    } else {
      LexLeReflexive(key(x));
      InsertKeepsKeyClasses(x, s[1..], key);
      var r := [s[0]] + Insert(x, s[1..], key);
      assert r[1..] == Insert(x, s[1..], key);
    }
  }

  /** The first element of a sorted sequence has the least key. */
  lemma SortedHeadLeast<T>(a: seq<T>, key: T -> string, i: int)
    requires SortedBy(a, key)
    requires 0 <= i < |a|
    ensures LexLe(key(a[0]), key(a[i]))
  {
    if i == 0 {
      LexLeReflexive(key(a[0]));
    }
  }

  /** Two sorted sequences with the same key classes start with the same key. */
  lemma SameHeadKey<T>(a: seq<T>, b: seq<T>, key: T -> string)
    requires SortedBy(a, key) && SortedBy(b, key)
    requires SameKeyClasses(a, b, key)
    requires |a| > 0 && |b| > 0
    ensures key(a[0]) == key(b[0])
  {
    var ka, kb := key(a[0]), key(b[0]);
    assert WithKey(a, key, kb) == WithKey(b, key, kb);
    assert b[0] in WithKey(a, key, kb);
    var i :| 0 <= i < |a| && a[i] == b[0];
    SortedHeadLeast(a, key, i);
    assert WithKey(a, key, ka) == WithKey(b, key, ka);
    assert a[0] in WithKey(b, key, ka);
    var j :| 0 <= j < |b| && b[j] == a[0];
    SortedHeadLeast(b, key, j);
    LexLeAntisymmetric(ka, kb);
  }

  /** Equal heads' key classes give equal heads and equal tails' classes. */
  lemma SameKeyClassesTails<T>(a: seq<T>, b: seq<T>, key: T -> string)
    requires SameKeyClasses(a, b, key)
    requires |a| > 0 && |b| > 0 && key(a[0]) == key(b[0])
    ensures a[0] == b[0]
    ensures SameKeyClasses(a[1..], b[1..], key)
  {
    var k0 := key(a[0]);
    assert WithKey(a, key, k0) == [a[0]] + WithKey(a[1..], key, k0);
    assert WithKey(b, key, k0) == [b[0]] + WithKey(b[1..], key, k0);
    assert WithKey(a, key, k0) == WithKey(b, key, k0);
    assert a[0] == WithKey(a, key, k0)[0];
    forall k
      ensures WithKey(a[1..], key, k) == WithKey(b[1..], key, k)
    {
      assert WithKey(a, key, k) == WithKey(b, key, k);
      if k == k0 {
        assert WithKey(a[1..], key, k) == WithKey(a, key, k)[1..];
        assert WithKey(b[1..], key, k) == WithKey(b, key, k)[1..];
      }
    }
  }

  /** A non-empty sequence has a non-empty key class for its first key. */
  lemma HeadClassNonEmpty<T>(s: seq<T>, key: T -> string)
    requires |s| > 0
    ensures |WithKey(s, key, key(s[0]))| > 0
  {
  }

  /** Only the empty sequence has the key classes of the empty sequence. */
  lemma EmptyKeyClasses<T>(a: seq<T>, b: seq<T>, key: T -> string)
    requires forall k :: WithKey(a, key, k) == WithKey(b, key, k)
    requires |a| == 0
    ensures |b| == 0
  {
    if |b| != 0 {
      HeadClassNonEmpty(b, key);
      assert false;
    }
  }

  /** A sorted sequence is determined by its key classes. */
  lemma {:induction false} SortedKeyClassesDetermine<T>(a: seq<T>, b: seq<T>, key: T -> string)
    requires SortedBy(a, key) && SortedBy(b, key)
    requires SameKeyClasses(a, b, key)
    ensures a == b
    decreases |a|
  {
    if |a| == 0 || |b| == 0 {
      if |a| == 0 {
        EmptyKeyClasses(a, b, key);
      } else {
        EmptyKeyClasses(b, a, key);
      }
    } else {
      SameHeadKey(a, b, key);
      SameKeyClassesTails(a, b, key);
      SortedKeyClassesDetermine(a[1..], b[1..], key);
      assert a == [a[0]] + a[1..];
      assert b == [b[0]] + b[1..];
    }
  }

  /**
   * `OrderBy` is the only stable sort: any sorted sequence that keeps the
   * key classes of `s` is `OrderBy(s, key)`.
   */
  lemma OrderByUnique<T>(s: seq<T>, r: seq<T>, key: T -> string)
    requires SortedBy(r, key)
    requires SameKeyClasses(r, s, key)
    ensures r == OrderBy(s, key)
  {
    var o := OrderBy(s, key);
    assert SameKeyClasses(r, o, key);
    SortedKeyClassesDetermine(r, o, key);
  }

  /** Sorting an already sorted sequence returns it unchanged. */
  lemma OrderBySortedIsIdentity<T>(s: seq<T>, key: T -> string)
    requires SortedBy(s, key)
    ensures OrderBy(s, key) == s
  {
    OrderByUnique(s, s, key);
  }
}
