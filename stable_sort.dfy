/** The one sort the program relies on: Python's `sorted(..., key=k, reverse=True)`
    and `list.sort(key=k, reverse=True)`, a stable sort by non-increasing key
    (elements with equal keys keep their original relative order). Modelled as
    insertion sort; its meaning is given by the lemmas below. */
module StableSort {

  /** Inserts x in front of the first element whose key is not larger than x's. */
  function Insert<T>(x: T, s: seq<T>, key: T -> int): seq<T>
    decreases |s|
  {
    if s == [] then [x]
    else if key(x) >= key(s[0]) then [x] + s
    else [s[0]] + Insert(x, s[1..], key)
  }

  function SortDesc<T>(s: seq<T>, key: T -> int): seq<T>
    decreases |s|
  {
    if s == [] then [] else Insert(s[0], SortDesc(s[1..], key), key)
  }

  predicate SortedDesc<T>(s: seq<T>, key: T -> int) {
    forall i, j :: 0 <= i < j < |s| ==> key(s[i]) >= key(s[j])
  }

  /** The elements of s whose key is k, in the order of s. */
  function WithKey<T>(s: seq<T>, key: T -> int, k: int): seq<T>
    decreases |s|
  {
    if s == [] then []
    else (if key(s[0]) == k then [s[0]] else []) + WithKey(s[1..], key, k)
  }

  lemma {:induction false} InsertMultiset<T>(x: T, s: seq<T>, key: T -> int)
    ensures multiset(Insert(x, s, key)) == multiset(s) + multiset{x}
    decreases |s|
  {
    if s != [] && key(x) < key(s[0]) {
      InsertMultiset(x, s[1..], key);
      assert s == [s[0]] + s[1..];
    }
  }

  /** Every key in the result of inserting x into t is bounded by b when x's
      key and all of t's are. */
  lemma InsertBounded<T>(x: T, t: seq<T>, key: T -> int, b: int)
    requires key(x) <= b && forall y :: y in t ==> key(y) <= b
    ensures forall y :: y in Insert(x, t, key) ==> key(y) <= b
  {
    InsertMembers(x, t, key);
  }

  lemma ConsSorted<T>(a: T, r: seq<T>, key: T -> int)
    requires SortedDesc(r, key) && forall y :: y in r ==> key(y) <= key(a)
    ensures SortedDesc([a] + r, key)
  {
    var c := [a] + r;
    forall i, j | 0 <= i < j < |c| ensures key(c[i]) >= key(c[j]) {
      if i == 0 { assert c[j] in r; } else { assert c[i] == r[i - 1] && c[j] == r[j - 1]; }
    }
  }

  lemma {:induction false} InsertSorted<T>(x: T, s: seq<T>, key: T -> int)
    requires SortedDesc(s, key)
    ensures SortedDesc(Insert(x, s, key), key)
    decreases |s|
  {
    if s != [] && key(x) < key(s[0]) {
      var t := s[1..];
      assert SortedDesc(t, key);
      InsertSorted(x, t, key);
      forall y | y in t ensures key(y) <= key(s[0]) {
        var m :| 0 <= m < |t| && t[m] == y;
        assert s[m + 1] == y;
      }
      InsertBounded(x, t, key, key(s[0]));
      ConsSorted(s[0], Insert(x, t, key), key);
    } else if s != [] {
      forall y | y in s ensures key(y) <= key(x) {
        var m :| 0 <= m < |s| && s[m] == y;
        assert key(s[0]) >= key(s[m]);
      }
      ConsSorted(x, s, key);
    }
  }

  lemma WithKeyCons<T>(a: T, t: seq<T>, key: T -> int, k: int)
    ensures WithKey([a] + t, key, k) == (if key(a) == k then [a] else []) + WithKey(t, key, k)
  {
    assert ([a] + t)[1..] == t;
  }

  lemma {:induction false} InsertWithKey<T>(x: T, s: seq<T>, key: T -> int, k: int)
    ensures WithKey(Insert(x, s, key), key, k) == (if key(x) == k then [x] else []) + WithKey(s, key, k)
    decreases |s|
  {
    if s == [] {
      WithKeyCons(x, [], key, k);
    } else if key(x) >= key(s[0]) {
      WithKeyCons(x, s, key, k);
    } else {
      var t := s[1..];
      var r1 := Insert(x, t, key);
      InsertWithKey(x, t, key, k);
      assert Insert(x, s, key) == [s[0]] + r1;
      WithKeyCons(s[0], r1, key, k);
      WithKeyCons(s[0], t, key, k);
      assert s == [s[0]] + t;
    }
  }

  lemma {:induction false} InsertLength<T>(x: T, s: seq<T>, key: T -> int)
    ensures |Insert(x, s, key)| == |s| + 1
    decreases |s|
  {
    if s != [] && key(x) < key(s[0]) {
      InsertLength(x, s[1..], key);
    }
  }

  lemma {:induction false} SortDescLength<T>(s: seq<T>, key: T -> int)
    ensures |SortDesc(s, key)| == |s|
    decreases |s|
  {
    if s != [] {
      SortDescLength(s[1..], key);
      InsertLength(s[0], SortDesc(s[1..], key), key);
    }
  }

  lemma {:induction false} SortDescMultiset<T>(s: seq<T>, key: T -> int)
    ensures multiset(SortDesc(s, key)) == multiset(s)
    decreases |s|
  {
    if s != [] {
      SortDescMultiset(s[1..], key);
      InsertMultiset(s[0], SortDesc(s[1..], key), key);
      assert s == [s[0]] + s[1..];
    }
  }

  lemma {:induction false} SortDescOrdered<T>(s: seq<T>, key: T -> int)
    ensures SortedDesc(SortDesc(s, key), key)
    decreases |s|
  {
    if s != [] {
      SortDescOrdered(s[1..], key);
      InsertSorted(s[0], SortDesc(s[1..], key), key);
    }
  }

  /** SortDesc orders by non-increasing key and is a permutation of its input.
      The three facts are proved apart (each induction stays small) and gathered
      here, the form the rest of the model uses. */
  lemma SortDescSorted<T>(s: seq<T>, key: T -> int)
    ensures SortedDesc(SortDesc(s, key), key)
    ensures multiset(SortDesc(s, key)) == multiset(s)
    ensures |SortDesc(s, key)| == |s|
  {
    SortDescOrdered(s, key);
    SortDescMultiset(s, key);
    SortDescLength(s, key);
  }

  /** kept is drawn from s (as a multiset), and nothing of s that was left out
      has a larger key than anything kept. */
  predicate KeepsBest<T(==)>(s: seq<T>, kept: seq<T>, key: T -> int) {
    multiset(kept) <= multiset(s) &&
    forall x, y :: x in multiset(s) - multiset(kept) && y in kept ==> key(x) <= key(y)
  }

  /** `sorted(s, key=k, reverse=True)[:n]` keeps the n elements with the largest
      keys: the first k of the sort are drawn from s, and every element of s
      beyond them has a key no larger than any of them. */
  lemma SortDescPrefixBest<T>(s: seq<T>, key: T -> int, k: nat)
    requires k <= |s|
    ensures k <= |SortDesc(s, key)| && KeepsBest(s, SortDesc(s, key)[..k], key)
  {
    SortDescSorted(s, key);
    SortedPrefixBest(s, SortDesc(s, key), key, k);
  }

  /** The same for any ordered permutation t of s. */
  lemma SortedPrefixBest<T>(s: seq<T>, t: seq<T>, key: T -> int, k: nat)
    requires SortedDesc(t, key) && multiset(t) == multiset(s) && k <= |t|
    ensures KeepsBest(s, t[..k], key)
  {
    var front, back := t[..k], t[k..];
    assert t == front + back;
    assert multiset(s) - multiset(front) == multiset(back);
    forall x, y | x in multiset(s) - multiset(front) && y in front ensures key(x) <= key(y) {
      assert x in back;
      SortedSplit(t, key, k, x, y);
    }
  }

  /** In an ordered list, nothing after position k has a larger key than
      anything before it. */
  lemma SortedSplit<T>(t: seq<T>, key: T -> int, k: nat, x: T, y: T)
    requires SortedDesc(t, key) && k <= |t|
    requires x in t[k..] && y in t[..k]
    ensures key(x) <= key(y)
  {
    var j :| 0 <= j < |t[k..]| && t[k..][j] == x;
    var i :| 0 <= i < |t[..k]| && t[..k][i] == y;
    assert t[i] == y && t[k + j] == x;
  }

  /** Stability: for every key value, the elements carrying it appear in the
      result in exactly the order they had in the input. */
  lemma {:induction false} SortDescStable<T>(s: seq<T>, key: T -> int, k: int)
    ensures WithKey(SortDesc(s, key), key, k) == WithKey(s, key, k)
    decreases |s|
  {
    if s != [] {
      SortDescStable(s[1..], key, k);
      SortDescSorted(s[1..], key);
      InsertWithKey(s[0], SortDesc(s[1..], key), key, k);
    }
  }

  lemma SortDescMembers<T>(s: seq<T>, key: T -> int)
    ensures forall x :: x in SortDesc(s, key) <==> x in s
  {
    SortDescSorted(s, key);
    forall x ensures x in SortDesc(s, key) <==> x in s {
      assert x in SortDesc(s, key) <==> x in multiset(SortDesc(s, key));
      assert x in s <==> x in multiset(s);
    }
  }

  /** The elements with key k of a prefix of s form a prefix of those of s. */
  lemma {:induction false} WithKeyPrefix<T>(s: seq<T>, n: nat, key: T -> int, k: int)
    requires n <= |s|
    ensures WithKey(s[..n], key, k) <= WithKey(s, key, k)
    decreases n
  {
    if n > 0 {
      WithKeyPrefix(s[1..], n - 1, key, k);
      assert s[..n][1..] == s[1..][..n - 1];
    }
  }

  /** Keys that are pairwise different in the input (for a second key function dk)
      stay pairwise different after sorting. */
  lemma {:induction false} SortDescDistinctKeys<T, K>(s: seq<T>, key: T -> int, dk: T -> K)
    requires forall i, j :: 0 <= i < j < |s| ==> dk(s[i]) != dk(s[j])
    ensures forall i, j :: 0 <= i < j < |SortDesc(s, key)| ==> dk(SortDesc(s, key)[i]) != dk(SortDesc(s, key)[j])
    decreases |s|
  {
    if s != [] {
      var t := SortDesc(s[1..], key);
      SortDescDistinctKeys(s[1..], key, dk);
      SortDescSorted(s[1..], key);
      forall y | y in t ensures dk(y) != dk(s[0]) {
        assert y in multiset(t);
        assert y in s[1..];
        var m :| 0 <= m < |s[1..]| && s[1..][m] == y;
        assert s[m + 1] == y;
      }
      InsertDistinctKeys(s[0], t, key, dk);
    }
  }

  lemma {:induction false} InsertDistinctKeys<T, K>(x: T, t: seq<T>, key: T -> int, dk: T -> K)
    requires forall i, j :: 0 <= i < j < |t| ==> dk(t[i]) != dk(t[j])
    requires forall y :: y in t ==> dk(y) != dk(x)
    ensures forall i, j :: 0 <= i < j < |Insert(x, t, key)| ==> dk(Insert(x, t, key)[i]) != dk(Insert(x, t, key)[j])
    ensures forall y :: y in Insert(x, t, key) ==> y == x || y in t
    decreases |t|
  {
    if t != [] && key(x) < key(t[0]) {
      InsertDistinctKeys(x, t[1..], key, dk);
      var r1 := Insert(x, t[1..], key);
      var r := [t[0]] + r1;
      assert Insert(x, t, key) == r;
      forall y | y in r1 ensures dk(y) != dk(t[0]) {
        if y != x {
          var m :| 0 <= m < |t[1..]| && t[1..][m] == y;
          assert t[m + 1] == y;
        }
      }
      forall i, j | 0 <= i < j < |r| ensures dk(r[i]) != dk(r[j]) {
        if i == 0 { assert r[j] in r1; } else { assert r[i] == r1[i - 1] && r[j] == r1[j - 1]; }
      }
    } else if t != [] {
      var r := [x] + t;
      forall i, j | 0 <= i < j < |r| ensures dk(r[i]) != dk(r[j]) {
        if i == 0 { assert r[j] in t; } else { assert r[i] == t[i - 1] && r[j] == t[j - 1]; }
      }
    }
  }

  lemma InsertMembers<T>(x: T, s: seq<T>, key: T -> int)
    ensures forall y :: y in Insert(x, s, key) <==> y == x || y in s
  {
    InsertMultiset(x, s, key);
    forall y ensures y in Insert(x, s, key) <==> y == x || y in s {
      assert y in Insert(x, s, key) <==> y in multiset(Insert(x, s, key));
      assert y in s <==> y in multiset(s);
    }
  }

  lemma InsertMemberFrom<T>(x: T, s: seq<T>, key: T -> int, y: T)
    requires y in Insert(x, s, key) && key(y) != key(x)
    ensures y in s
  {
    InsertMembers(x, s, key);
  }

  /** Among elements with equal keys, rank increases along s. */
  predicate TiesRanked<T>(s: seq<T>, key: T -> int, rank: T -> int) {
    forall i, j :: 0 <= i < j < |s| && key(s[i]) == key(s[j]) ==> rank(s[i]) < rank(s[j])
  }

  lemma ConsTiesRanked<T>(a: T, r: seq<T>, key: T -> int, rank: T -> int)
    requires TiesRanked(r, key, rank)
    requires forall y :: y in r && key(y) == key(a) ==> rank(a) < rank(y)
    ensures TiesRanked([a] + r, key, rank)
  {
    var c := [a] + r;
    forall i, j | 0 <= i < j < |c| && key(c[i]) == key(c[j]) ensures rank(c[i]) < rank(c[j]) {
      if i == 0 { assert c[j] in r; } else { assert c[i] == r[i - 1] && c[j] == r[j - 1]; }
    }
  }

  lemma {:induction false} InsertTiesRanked<T>(x: T, t: seq<T>, key: T -> int, rank: T -> int)
    requires SortedDesc(t, key) && TiesRanked(t, key, rank)
    requires forall y :: y in t ==> rank(x) < rank(y)
    ensures TiesRanked(Insert(x, t, key), key, rank)
    decreases |t|
  {
    if t == [] {
    } else if key(x) >= key(t[0]) {
      ConsTiesRanked(x, t, key, rank);
    } else {
      var t1 := t[1..];
      assert TiesRanked(t1, key, rank);
      forall y | y in t1 ensures rank(x) < rank(y) { assert y in t; }
      InsertTiesRanked(x, t1, key, rank);
      var r1 := Insert(x, t1, key);
      forall y | y in r1 && key(y) == key(t[0]) ensures rank(t[0]) < rank(y) {
        InsertMemberFrom(x, t1, key, y);
        var m :| 0 <= m < |t1| && t1[m] == y;
        assert t[m + 1] == y;
      }
      ConsTiesRanked(t[0], r1, key, rank);
      assert Insert(x, t, key) == [t[0]] + r1;
    }
  }

  /** Stability stated through a rank: when rank increases strictly along the
      input, elements with equal keys come out in increasing rank. */
  lemma {:induction false} SortDescTiesRanked<T>(s: seq<T>, key: T -> int, rank: T -> int)
    requires forall i, j :: 0 <= i < j < |s| ==> rank(s[i]) < rank(s[j])
    ensures TiesRanked(SortDesc(s, key), key, rank)
    decreases |s|
  {
    if s != [] {
      var t := SortDesc(s[1..], key);
      SortDescTiesRanked(s[1..], key, rank);
      SortDescSorted(s[1..], key);
      forall y | y in t ensures rank(s[0]) < rank(y) {
        assert y in multiset(t);
        assert y in s[1..];
        var m :| 0 <= m < |s[1..]| && s[1..][m] == y;
        assert s[m + 1] == y;
      }
      InsertTiesRanked(s[0], t, key, rank);
    }
  }
}
