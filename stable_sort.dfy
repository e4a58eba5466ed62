/**
 * Array.prototype.sort is stable: elements the comparator calls equal keep
 * their input order.  Both sorts of the application compare one integer key
 * (elapsed time, instance id), so a stable sort by an integer key, ascending,
 * covers them; a descending order uses the negated key.
 */
module StableSort {

  predicate SortedBy<T>(s: seq<T>, key: T -> int) {
    forall i, j :: 0 <= i < j < |s| ==> key(s[i]) <= key(s[j])
  }

  /** Puts x after every element whose key is at most its own and before the first greater one. */
  function Insert<T>(x: T, s: seq<T>, key: T -> int): (r: seq<T>)
    requires SortedBy(s, key)
    ensures SortedBy(r, key)
    ensures multiset(r) == multiset(s) + multiset{x}
    ensures |r| == |s| + 1
    ensures forall y :: y in r ==> y == x || y in s
  {
    if s == [] then [x]
    else if key(s[0]) <= key(x) then
      var rest := Insert(x, s[1..], key);
      FirstIsLeast(s, key);
      ConsSorted(s[0], rest, key);
      assert s == [s[0]] + s[1..];
      [s[0]] + rest
    else
      ConsSorted(x, s, key);
      [x] + s
  }

  lemma FirstIsLeast<T>(s: seq<T>, key: T -> int)
    requires SortedBy(s, key) && s != []
    ensures forall y :: y in s ==> key(s[0]) <= key(y)
  {
    forall y | y in s ensures key(s[0]) <= key(y) {
      var k :| 0 <= k < |s| && s[k] == y;
    }
  }

  lemma ConsSorted<T>(x: T, s: seq<T>, key: T -> int)
    requires SortedBy(s, key)
    requires forall y :: y in s ==> key(x) <= key(y)
    ensures SortedBy([x] + s, key)
  {
    forall i, j | 0 <= i < j < |[x] + s| ensures key(([x] + s)[i]) <= key(([x] + s)[j]) {
      assert ([x] + s)[j] == s[j - 1];
      assert s[j - 1] in s;
      if i > 0 {
        assert ([x] + s)[i] == s[i - 1];
      }
    }
  }

  /** Stable insertion sort: each element goes after the ones already placed with a key at most its own. */
  function Sort<T>(s: seq<T>, key: T -> int): (r: seq<T>)
    ensures SortedBy(r, key)
    ensures multiset(r) == multiset(s)
    ensures |r| == |s|
  {
    if s == [] then []
    else
      assert s == s[..|s| - 1] + [s[|s| - 1]];
      Insert(s[|s| - 1], Sort(s[..|s| - 1], key), key)
  }

  /** The elements of s whose key is k, in the order of s. */
  function WithKey<T>(s: seq<T>, key: T -> int, k: int): (r: seq<T>)
    ensures |r| <= |s|
  {
    if s == [] then []
    else WithKey(s[..|s| - 1], key, k) + (if key(s[|s| - 1]) == k then [s[|s| - 1]] else [])
  }

  /** Stability: elements with equal keys come out in the order they went in. */
  lemma {:induction false} SortIsStable<T>(s: seq<T>, key: T -> int, k: int)
    ensures WithKey(Sort(s, key), key, k) == WithKey(s, key, k)
  {
    if s != [] {
      var p, x := s[..|s| - 1], s[|s| - 1];
      SortIsStable(p, key, k);
      InsertWithKey(x, Sort(p, key), key, k);
    }
  }

  lemma {:induction false} InsertWithKey<T>(x: T, s: seq<T>, key: T -> int, k: int)
    requires SortedBy(s, key)
    ensures WithKey(Insert(x, s, key), key, k)
         == WithKey(s, key, k) + (if key(x) == k then [x] else [])
    decreases |s|
  {
    if s == [] {
      WithKeyFront(x, [], key, k);
      assert [x] + [] == [x];
    } else if key(s[0]) <= key(x) {
      InsertWithKeyAfter(x, s, key, k);
    } else {
      WithKeyFront(x, s, key, k);
      if key(x) == k {
        AboveKeyHasNone(s, key, k);
      }
    }
  }

  lemma {:induction false} InsertWithKeyAfter<T>(x: T, s: seq<T>, key: T -> int, k: int)
    requires SortedBy(s, key) && s != [] && key(s[0]) <= key(x)
    ensures WithKey(Insert(x, s, key), key, k)
         == WithKey(s, key, k) + (if key(x) == k then [x] else [])
    decreases |s|, 0
  {
    var rest := Insert(x, s[1..], key);
    assert Insert(x, s, key) == [s[0]] + rest;
    InsertWithKey(x, s[1..], key, k);
    WithKeyFront(s[0], rest, key, k);
    WithKeyFront(s[0], s[1..], key, k);
    assert s == [s[0]] + s[1..];
  }

  /** WithKey read from the front. */
  lemma {:induction false} WithKeyFront<T>(x: T, s: seq<T>, key: T -> int, k: int)
    ensures WithKey([x] + s, key, k) == (if key(x) == k then [x] else []) + WithKey(s, key, k)
    decreases |s|
  {
    if s == [] {
      assert [x] + s == [x] && [x][..0] == [];
    } else {
      var p := s[..|s| - 1];
      assert ([x] + s)[..|s|] == [x] + p;
      WithKeyFront(x, p, key, k);
    }
  }

  /** A sorted sequence whose first key exceeds k holds no element of key k. */
  lemma {:induction false} AboveKeyHasNone<T>(s: seq<T>, key: T -> int, k: int)
    requires SortedBy(s, key) && s != [] && key(s[0]) > k
    ensures WithKey(s, key, k) == []
    decreases |s|
  {
    if |s| > 1 {
      AboveKeyHasNone(s[..|s| - 1], key, k);
      assert key(s[0]) <= key(s[|s| - 1]);
    } else {
      assert s[..0] == [];
    }
  }

  /** Selecting by key distributes over concatenation. */
  lemma {:induction false} WithKeyAppend<T>(a: seq<T>, b: seq<T>, key: T -> int, k: int)
    ensures WithKey(a + b, key, k) == WithKey(a, key, k) + WithKey(b, key, k)
    decreases |b|
  {
    if b == [] {
      assert a + b == a;
    } else {
      var p := b[..|b| - 1];
      assert (a + b)[..|a + b| - 1] == a + p;
      WithKeyAppend(a, p, key, k);
    }
  }

  /**
   * Cutting the sorted sequence anywhere splits the elements of each key
   * into a front part and a back part, both in input order.
   */
  lemma SortSplit<T>(s: seq<T>, key: T -> int, k: int, n: nat)
    requires n <= |s|
    ensures WithKey(s, key, k) == WithKey(Sort(s, key)[..n], key, k) + WithKey(Sort(s, key)[n..], key, k)
  {
    var sorted := Sort(s, key);
    SortIsStable(s, key, k);
    var front, back := sorted[..n], sorted[n..];
    WithKeyAppend(front, back, key, k);
    assert front + back == sorted;
  }

  /** The first n elements of the sorted sequence (all of them when there are fewer). */
  function SortedTop<T>(s: seq<T>, key: T -> int, n: nat): (r: seq<T>)
    ensures |r| == if |s| < n then |s| else n
  {
    var sorted := Sort(s, key);
    sorted[..if |sorted| < n then |sorted| else n]
  }

  /** What SortedTop leaves out: the rest of the sorted sequence. */
  function SortedRest<T>(s: seq<T>, key: T -> int, n: nat): (r: seq<T>)
    ensures |r| == |s| - |SortedTop(s, key, n)|
  {
    var sorted := Sort(s, key);
    sorted[if |sorted| < n then |sorted| else n..]
  }

  /**
   * The kept and the left-out elements together are the input, the kept
   * ones are in key order, and none left out has a smaller key than the last kept.
   */
  lemma SortedTopLeftOut<T>(s: seq<T>, key: T -> int, n: nat)
    ensures multiset(SortedTop(s, key, n)) + multiset(SortedRest(s, key, n)) == multiset(s)
    ensures SortedBy(SortedTop(s, key, n), key)
    ensures SortedTop(s, key, n) != [] ==>
      forall i :: 0 <= i < |SortedRest(s, key, n)| ==>
        key(SortedTop(s, key, n)[|SortedTop(s, key, n)| - 1]) <= key(SortedRest(s, key, n)[i])
  {
    var sorted := Sort(s, key);
    var m := if |sorted| < n then |sorted| else n;
    SortedParts(sorted, m, key);
  }

  /** Both parts of a cut sorted sequence are sorted, and the front's last key bounds the back. */
  lemma SortedParts<T>(s: seq<T>, m: nat, key: T -> int)
    requires SortedBy(s, key) && m <= |s|
    ensures multiset(s[..m]) + multiset(s[m..]) == multiset(s)
    ensures SortedBy(s[..m], key)
    ensures 0 < m ==> forall i :: 0 <= i < |s[m..]| ==> key(s[..m][m - 1]) <= key(s[m..][i])
  {
    assert s[..m] + s[m..] == s;
  }

  /** Elements of one key: the kept ones followed by the left-out ones give them all, in input order. */
  lemma SortedTopTies<T>(s: seq<T>, key: T -> int, n: nat, k: int)
    ensures WithKey(s, key, k)
         == WithKey(SortedTop(s, key, n), key, k) + WithKey(SortedRest(s, key, n), key, k)
  {
    var sorted := Sort(s, key);
    var m := if |sorted| < n then |sorted| else n;
    SortSplit(s, key, k, m);
  }
}
