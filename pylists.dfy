/** Sequence helpers that follow the semantics of Python lists and dicts as the
    recommender uses them: slicing with clamped and negative bounds, `list.index`,
    counting, and "keep the first occurrence of each key" deduplication. */
module PyLists {

  datatype Option<+T> = None | Some(value: T) {
    /** `x or default` / `d.get(k, default)`: the value when present, else `default`. */
    function GetOr(default: T): T {
      match this
      case Some(v) => v
      case None => default
    }
  }

  function Min(a: int, b: int): int { if a <= b then a else b }

  /** One bound of a step-1 slice, normalised as Python does for a list of
      length n: a negative bound counts from the end, then it is clamped to 0..n. */
  function SliceBound(i: int, n: nat): (b: nat)
    ensures b <= n
  {
    if i < 0 then (if i + n < 0 then 0 else i + n)
    else if i > n then n
    else i
  }

  /** Python's `s[i:j]`; with a negative start and an end past the list,
      `s[-n:]` is the last min(n, len) elements. */
  function PySlice<T>(s: seq<T>, i: int, j: int): (r: seq<T>)
    ensures |r| <= |s|
    ensures 0 <= i <= j <= |s| ==> r == s[i..j]
    ensures 0 <= i && |s| <= j && i <= |s| ==> r == s[i..]
    ensures i < 0 && |s| <= j ==> r == s[|s| - Min(-i, |s|)..]
  {
    var lo, hi := SliceBound(i, |s|), SliceBound(j, |s|);
    if lo < hi then s[lo..hi] else []
  }

  /** Python's `s[:n]`. */
  function Take<T>(s: seq<T>, n: int): (r: seq<T>)
    ensures 0 <= n ==> r == s[..Min(n, |s|)]
    ensures n < 0 ==> r == s[..SliceBound(n, |s|)]
  {
    PySlice(s, 0, n)
  }

  /** Number of occurrences of x in s. */
  function Count<T(==)>(s: seq<T>, x: T): nat
    decreases |s|
  {
    if s == [] then 0
    else Count(s[..|s| - 1], x) + (if s[|s| - 1] == x then 1 else 0)
  }

  lemma {:induction false} CountPositive<T>(s: seq<T>, x: T)
    ensures Count(s, x) > 0 <==> x in s
    decreases |s|
  {
    if s != [] {
      assert s == s[..|s| - 1] + [s[|s| - 1]];
      CountPositive(s[..|s| - 1], x);
    }
  }

  predicate Distinct<T(==)>(s: seq<T>) {
    forall i, j :: 0 <= i < j < |s| ==> s[i] != s[j]
  }

  function AsSet<T(==)>(s: seq<T>): set<T> { set x | x in s }

  /** Python's `s.index(x)`: the first position holding x. */
  function IndexOf<T(==)>(s: seq<T>, x: T): (i: nat)
    requires x in s
    ensures i < |s| && s[i] == x
    ensures forall j :: 0 <= j < i ==> s[j] != x
  {
    if s[0] == x then 0 else 1 + IndexOf(s[1..], x)
  }

  /** `IndexOf` made total: |s| when x does not occur. */
  function FirstIndex<T(==)>(s: seq<T>, x: T): nat {
    if x in s then IndexOf(s, x) else |s|
  }

  lemma IndexOfDistinct<T>(s: seq<T>, i: nat)
    requires Distinct(s) && i < |s|
    ensures IndexOf(s, s[i]) == i
  {
  }

  /** Removes every occurrence of x, keeping the order of the rest. */
  function Remove<T(==)>(s: seq<T>, x: T): seq<T>
    decreases |s|
  {
    if s == [] then []
    else (if s[0] == x then [] else [s[0]]) + Remove(s[1..], x)
  }

  lemma {:induction false} RemoveFacts<T>(s: seq<T>, x: T)
    ensures forall y :: y in Remove(s, x) <==> y in s && y != x
    ensures Distinct(s) ==> Distinct(Remove(s, x))
    ensures x !in s ==> Remove(s, x) == s
    decreases |s|
  {
    if s != [] {
      RemoveFacts(s[1..], x);
      var r := Remove(s, x);
      if Distinct(s) && s[0] != x {
        assert r == [s[0]] + Remove(s[1..], x);
        assert s[0] !in s[1..];
        forall i, j | 0 <= i < j < |r| ensures r[i] != r[j] {
          if i == 0 {
            assert r[j] in Remove(s[1..], x);
          } else {
            assert r[i] == Remove(s[1..], x)[i - 1];
            assert r[j] == Remove(s[1..], x)[j - 1];
          }
        }
      }
    }
  }

  /** The set of keys of the elements of s. */
  function Keys<T(==), K>(s: seq<T>, key: T -> K): set<K> {
    set x | x in s :: key(x)
  }

  lemma KeysSnoc<T, K>(s: seq<T>, x: T, key: T -> K)
    ensures Keys(s + [x], key) == Keys(s, key) + {key(x)}
  {
    forall k | k in Keys(s + [x], key) ensures k in Keys(s, key) + {key(x)} {
      var y :| y in s + [x] && key(y) == k;
      if y != x { assert y in s; }
    }
    assert key(x) in Keys(s + [x], key) by { assert x in s + [x]; }
    forall k | k in Keys(s, key) ensures k in Keys(s + [x], key) {
      var y :| y in s && key(y) == k;
      assert y in s + [x];
    }
  }

  /** No key occurs twice in s. */
  predicate DistinctKeys<T, K(==)>(s: seq<T>, key: T -> K) {
    forall i, j :: 0 <= i < j < |s| ==> key(s[i]) != key(s[j])
  }

  /** The loop "for x in s: if key(x) not in seen: keep x; seen.add(key(x))":
      the first element of s for each key, skipping keys already in seen, in the
      order of s. Written from the back, as the loop extends its result. */
  function Dedup<T(==), K(==)>(s: seq<T>, key: T -> K, seen: set<K>): seq<T>
    decreases |s|
  {
    if s == [] then []
    else
      var init, x := s[..|s| - 1], s[|s| - 1];
      if key(x) in seen || key(x) in Keys(init, key) then Dedup(init, key, seen)
      else Dedup(init, key, seen) + [x]
  }

  /** What Dedup keeps: elements of s only, no key from seen, no key twice,
      and every key of s outside seen. */
  lemma {:induction false} DedupFacts<T, K>(s: seq<T>, key: T -> K, seen: set<K>)
    ensures forall x :: x in Dedup(s, key, seen) ==> x in s && key(x) !in seen
    ensures Keys(Dedup(s, key, seen), key) == Keys(s, key) - seen
    ensures DistinctKeys(Dedup(s, key, seen), key)
    decreases |s|
  {
    if s != [] {
      var init, x := s[..|s| - 1], s[|s| - 1];
      assert s == init + [x];
      DedupFacts(init, key, seen);
      KeysSnoc(init, x, key);
      var r0 := Dedup(init, key, seen);
      forall y | y in r0 ensures y in s { assert y in init; }
      if !(key(x) in seen || key(x) in Keys(init, key)) {
        KeysSnoc(r0, x, key);
        var r := r0 + [x];
        forall i, j | 0 <= i < j < |r| ensures key(r[i]) != key(r[j]) {
          if j == |r| - 1 {
            assert r[i] in r0;
          } else {
            assert r[i] == r0[i] && r[j] == r0[j];
          }
        }
      }
    }
  }

  lemma {:induction false} DedupLength<T, K>(s: seq<T>, key: T -> K, seen: set<K>)
    ensures |Dedup(s, key, seen)| <= |s|
    decreases |s|
  {
    if s != [] {
      DedupLength(s[..|s| - 1], key, seen);
    }
  }

  /** Dedup keeps, in their original order, exactly the first occurrences:
      idx gives the position in s of each kept element; positions increase, and
      no earlier element of s has the same key. */
  lemma {:induction false} DedupKeepsFirst<T, K>(s: seq<T>, key: T -> K, seen: set<K>) returns (idx: seq<nat>)
    ensures |idx| == |Dedup(s, key, seen)|
    ensures forall k :: 0 <= k < |idx| ==> idx[k] < |s| && s[idx[k]] == Dedup(s, key, seen)[k]
    ensures forall k, j :: 0 <= k < |idx| && 0 <= j < idx[k] ==> key(s[j]) != key(s[idx[k]])
    ensures forall k, l :: 0 <= k < l < |idx| ==> idx[k] < idx[l]
    decreases |s|
  {
    if s == [] {
      idx := [];
    } else {
      var init, x := s[..|s| - 1], s[|s| - 1];
      var idx0 := DedupKeepsFirst(init, key, seen);
      if key(x) in seen || key(x) in Keys(init, key) {
        idx := idx0;
      } else {
        idx := idx0 + [|s| - 1];
        forall j | 0 <= j < |s| - 1 ensures key(s[j]) != key(x) {
          assert s[j] in init;
        }
      }
    }
  }
}
