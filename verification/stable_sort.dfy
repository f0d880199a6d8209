/** `Array.prototype.sort` called with a comparator of the form
    `(a, b) => key(a) - key(b)`: ECMAScript requires the sort to be stable, so the
    result is the input ordered by non-decreasing key, with equal keys in input order. */
module StableSort {

  /** Every element's key is at most the key of every later element. */
  predicate SortedBy<T>(s: seq<T>, key: T -> int) {
    forall i, j :: 0 <= i < j < |s| ==> key(s[i]) <= key(s[j])
  }

  /** Inserts x before the first element whose key is not smaller; into a sorted
      list, that is before every element x ties with. */
  function Insert<T>(x: T, s: seq<T>, key: T -> int): (r: seq<T>)
    ensures |r| == |s| + 1
  {
    if s == [] || key(x) <= key(s[0]) then [x] + s
    else [s[0]] + Insert(x, s[1..], key)
  }

  /** Insertion sort from the back: each element goes in front of the later elements
      it ties with, which is what makes the sort stable. */
  function Sort<T>(s: seq<T>, key: T -> int): (r: seq<T>)
    ensures |r| == |s|
  {
    if s == [] then [] else Insert(s[0], Sort(s[1..], key), key)
  }

  /** The elements of s whose key is k, in their order in s. */
  function WithKey<T>(s: seq<T>, key: T -> int, k: int): seq<T> {
    if s == [] then []
    else (if key(s[0]) == k then [s[0]] else []) + WithKey(s[1..], key, k)
  }

  lemma {:induction false} InsertPermutes<T>(x: T, s: seq<T>, key: T -> int)
    ensures multiset(Insert(x, s, key)) == multiset(s) + multiset{x}
    decreases |s|
  {
    if s != [] && key(x) > key(s[0]) {
      InsertPermutes(x, s[1..], key);
      assert s == [s[0]] + s[1..];
    }
  }

  /** A lower bound on every key of a sorted list extends it at the front. */
  lemma ConsSorted<T>(h: T, rest: seq<T>, key: T -> int)
    requires SortedBy(rest, key)
    requires forall j :: 0 <= j < |rest| ==> key(h) <= key(rest[j])
    ensures SortedBy([h] + rest, key)
  {
    var r := [h] + rest;
    forall i, j | 0 <= i < j < |r|
      ensures key(r[i]) <= key(r[j])
    {
      assert r[j] == rest[j - 1];
      if 0 < i {
        assert r[i] == rest[i - 1];
      }
    }
  }

  /** Inserting keeps a lower bound that x and every element of s respect. */
  lemma {:induction false} InsertBounded<T>(x: T, s: seq<T>, key: T -> int, b: int)
    requires b <= key(x)
    requires forall j :: 0 <= j < |s| ==> b <= key(s[j])
    ensures forall j :: 0 <= j < |Insert(x, s, key)| ==> b <= key(Insert(x, s, key)[j])
    decreases |s|
  {
    var r := Insert(x, s, key);
    if s == [] || key(x) <= key(s[0]) {
      assert r == [x] + s;
      forall j | 0 <= j < |r| ensures b <= key(r[j]) {
        if 0 < j {
          assert r[j] == s[j - 1];
        }
      }
    } else {
      var rest := Insert(x, s[1..], key);
      InsertBounded(x, s[1..], key, b);
      assert r == [s[0]] + rest;
      forall j | 0 <= j < |r| ensures b <= key(r[j]) {
        if 0 < j {
          assert r[j] == rest[j - 1];
        }
      }
    }
  }

  lemma {:induction false} InsertSorted<T>(x: T, s: seq<T>, key: T -> int)
    requires SortedBy(s, key)
    ensures SortedBy(Insert(x, s, key), key)
    decreases |s|
  {
    if s == [] || key(x) <= key(s[0]) {
      assert Insert(x, s, key) == [x] + s;
      ConsSorted(x, s, key);
    } else {
      var tail := s[1..];
      var rest := Insert(x, tail, key);
      InsertSorted(x, tail, key);
      assert forall j :: 0 <= j < |tail| ==> key(s[0]) <= key(tail[j]) by {
        forall j | 0 <= j < |tail| ensures key(s[0]) <= key(tail[j]) {
          assert tail[j] == s[j + 1];
        }
      }
      InsertBounded(x, tail, key, key(s[0]));
      assert Insert(x, s, key) == [s[0]] + rest;
      ConsSorted(s[0], rest, key);
    }
  }

  /** The sort is a permutation of its input, ordered by non-decreasing key. */
  lemma {:induction false} SortPermutesAndOrders<T>(s: seq<T>, key: T -> int)
    ensures |Sort(s, key)| == |s| && multiset(Sort(s, key)) == multiset(s)
    ensures SortedBy(Sort(s, key), key)
    decreases |s|
  {
    if s != [] {
      var rest := Sort(s[1..], key);
      SortPermutesAndOrders(s[1..], key);
      InsertPermutes(s[0], rest, key);
      InsertSorted(s[0], rest, key);
      assert s == [s[0]] + s[1..];
      assert |multiset(Sort(s, key))| == |multiset(s)|;
    }
  }

  lemma WithKeyCons<T>(x: T, s: seq<T>, key: T -> int, k: int)
    ensures WithKey([x] + s, key, k) == (if key(x) == k then [x] else []) + WithKey(s, key, k)
  {
    assert ([x] + s)[0] == x;
    assert ([x] + s)[1..] == s;
  }

  lemma {:induction false} InsertWithKey<T>(x: T, s: seq<T>, key: T -> int, k: int)
    ensures WithKey(Insert(x, s, key), key, k) == (if key(x) == k then [x] else []) + WithKey(s, key, k)
    decreases |s|
  {
    if s == [] || key(x) <= key(s[0]) {
      WithKeyCons(x, s, key, k);
    } else {
      var rest := Insert(x, s[1..], key);
      InsertWithKey(x, s[1..], key, k);
      WithKeyCons(s[0], rest, key, k);
      WithKeyCons(s[0], s[1..], key, k);
      assert s == [s[0]] + s[1..];
    }
  }

  /** Stability: for every key value, the elements carrying it appear in the result
      in exactly their input order. */
  lemma {:induction false} SortIsStable<T>(s: seq<T>, key: T -> int, k: int)
    ensures WithKey(Sort(s, key), key, k) == WithKey(s, key, k)
    decreases |s|
  {
    if s != [] {
      SortIsStable(s[1..], key, k);
      InsertWithKey(s[0], Sort(s[1..], key), key, k);
    }
  }

  /** Sorting a list that is already ordered by key returns it unchanged. */
  lemma {:induction false} SortOfSorted<T>(s: seq<T>, key: T -> int)
    requires SortedBy(s, key)
    ensures Sort(s, key) == s
    decreases |s|
  {
    if s != [] {
      assert SortedBy(s[1..], key) by {
        forall i, j | 0 <= i < j < |s[1..]|
          ensures key(s[1..][i]) <= key(s[1..][j])
        {
          assert s[1..][i] == s[i + 1] && s[1..][j] == s[j + 1];
        }
      }
      SortOfSorted(s[1..], key);
      assert s == [s[0]] + s[1..];
    }
  }

  lemma {:induction false} WithKeyWitness<T>(s: seq<T>, key: T -> int, k: int) returns (j: int)
    requires WithKey(s, key, k) != []
    ensures 0 <= j < |s| && key(s[j]) == k
    decreases |s|
  {
    if key(s[0]) == k {
      j := 0;
    } else {
      var j' := WithKeyWitness(s[1..], key, k);
      j := j' + 1;
    }
  }

  lemma WithKeyOfHead<T>(s: seq<T>, key: T -> int)
    requires s != []
    ensures WithKey(s, key, key(s[0])) != []
  {
  }

  /** Two key-ordered lists with the same elements, in the same order, under every
      key value are equal. */
  lemma {:induction false} SortedWithSameKeyClassesEqual<T>(a: seq<T>, b: seq<T>, key: T -> int)
    requires SortedBy(a, key) && SortedBy(b, key)
    requires forall k :: WithKey(a, key, k) == WithKey(b, key, k)
    ensures a == b
    decreases |a|
  {
    if a == [] && b != [] {
      WithKeyOfHead(b, key);
      assert false;
    } else if a != [] && b == [] {
      WithKeyOfHead(a, key);
      assert false;
    } else if a != [] {
      var k0, k1 := key(a[0]), key(b[0]);
      assert WithKey(a, key, k0) != [];
      var jb := WithKeyWitness(b, key, k0);
      assert WithKey(b, key, k1) != [];
      var ja := WithKeyWitness(a, key, k1);
      assert k0 == k1 by {
        if 0 < jb {
          assert key(b[0]) <= key(b[jb]);
        }
        if 0 < ja {
          assert key(a[0]) <= key(a[ja]);
        }
      }
      assert a == [a[0]] + a[1..] && b == [b[0]] + b[1..];
      forall k
        ensures WithKey(a[1..], key, k) == WithKey(b[1..], key, k)
      {
        assert WithKey(a, key, k) == WithKey(b, key, k);
        WithKeyCons(a[0], a[1..], key, k);
        WithKeyCons(b[0], b[1..], key, k);
        if k == k0 {
          assert WithKey(a, key, k) == [a[0]] + WithKey(a[1..], key, k);
          assert WithKey(b, key, k) == [b[0]] + WithKey(b[1..], key, k);
          assert WithKey(a[1..], key, k) == WithKey(a, key, k)[1..];
          assert WithKey(b[1..], key, k) == WithKey(b, key, k)[1..];
        } else {
          assert WithKey(a, key, k) == WithKey(a[1..], key, k);
          assert WithKey(b, key, k) == WithKey(b[1..], key, k);
        }
      }
      WithKeyCons(a[0], a[1..], key, k0);
      WithKeyCons(b[0], b[1..], key, k0);
      assert a[0] == WithKey(a, key, k0)[0] == WithKey(b, key, k0)[0] == b[0];
      assert SortedBy(a[1..], key) by {
        forall i, j | 0 <= i < j < |a[1..]|
          ensures key(a[1..][i]) <= key(a[1..][j])
        {
          assert a[1..][i] == a[i + 1] && a[1..][j] == a[j + 1];
        }
      }
      assert SortedBy(b[1..], key) by {
        forall i, j | 0 <= i < j < |b[1..]|
          ensures key(b[1..][i]) <= key(b[1..][j])
        {
          assert b[1..][i] == b[i + 1] && b[1..][j] == b[j + 1];
        }
      }
      SortedWithSameKeyClassesEqual(a[1..], b[1..], key);
    }
  }

  /** Reference characterization: the sort is the ONLY key-ordered arrangement that
      keeps every key class in input order. */
  lemma SortIsUnique<T>(s: seq<T>, r: seq<T>, key: T -> int)
    requires SortedBy(r, key)
    requires forall k :: WithKey(r, key, k) == WithKey(s, key, k)
    ensures r == Sort(s, key)
  {
    SortPermutesAndOrders(s, key);
    forall k
      ensures WithKey(r, key, k) == WithKey(Sort(s, key), key, k)
    {
      SortIsStable(s, key, k);
    }
    SortedWithSameKeyClassesEqual(r, Sort(s, key), key);
  }
}
