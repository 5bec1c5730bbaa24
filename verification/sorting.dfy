/** A stable sort by an integer key, standing for LINQ's `OrderBy`, which is a
    stable sort: elements with equal keys keep their relative order.
    Insertion sort is used because its stability is easy to state and prove. */
module Sorting {

  /** `s` is non-decreasing by `key`. */
  ghost predicate Sorted<T>(s: seq<T>, key: T -> int)
  {
    forall i, j :: 0 <= i < j < |s| ==> key(s[i]) <= key(s[j])
  }

  /** `rank` is strictly increasing along `s`: it tells every element's
      original position. */
  ghost predicate Ranked<T>(s: seq<T>, rank: T -> int)
  {
    forall i, j :: 0 <= i < j < |s| ==> rank(s[i]) < rank(s[j])
  }

  /** `s` is ordered by `key`, and elements with equal keys are ordered by
      `rank`: the lexicographic order a stable sort produces. */
  ghost predicate StablySorted<T>(s: seq<T>, key: T -> int, rank: T -> int)
  {
    forall i, j :: 0 <= i < j < |s| ==>
      key(s[i]) < key(s[j]) || (key(s[i]) == key(s[j]) && rank(s[i]) < rank(s[j]))
  }

  /** Inserts `x` in front of the first element whose key is not smaller, so
      that `x` precedes every element of `s` that has the same key. */
  function Insert<T>(x: T, s: seq<T>, key: T -> int): (r: seq<T>)
    ensures multiset(r) == multiset(s) + multiset{x}
    ensures Sorted(s, key) ==> Sorted(r, key)
  {
    if |s| == 0 || key(x) <= key(s[0]) then
      PrependBelowHead(x, s, key);
      PrependKeepsSorted(x, s, key);
      [x] + s
    else
      var tail := Insert(x, s[1..], key);
      assert s == [s[0]] + s[1..];
      InsertedAboveHead(x, s, tail, key);
      PrependKeepsSorted(s[0], tail, key);
      [s[0]] + tail
  }

  /** Putting an element with a key no larger than any other in front keeps
      a sequence sorted. */
  lemma PrependKeepsSorted<T>(h: T, t: seq<T>, key: T -> int)
    ensures Sorted(t, key) && (forall y :: y in t ==> key(h) <= key(y)) ==> Sorted([h] + t, key)
  {
    if Sorted(t, key) && (forall y :: y in t ==> key(h) <= key(y)) {
      var r := [h] + t;
      forall i, j | 0 <= i < j < |r| ensures key(r[i]) <= key(r[j]) {
        assert r[j] == t[j - 1] && r[j] in t;
        if i > 0 {
          assert r[i] == t[i - 1];
        }
      }
    }
  }

  /** An element with a key no larger than the head of a sorted sequence is
      no larger than any of it. */
  lemma PrependBelowHead<T>(x: T, s: seq<T>, key: T -> int)
    requires |s| == 0 || key(x) <= key(s[0])
    ensures Sorted(s, key) ==> forall y :: y in s ==> key(x) <= key(y)
  {
    if Sorted(s, key) {
      forall y | y in s ensures key(x) <= key(y) {
        var j :| 0 <= j < |s| && s[j] == y;
        if j > 0 {
          assert key(s[0]) <= key(s[j]);
        }
      }
    }
  }

  /** When `x` goes past the head of a sorted `s`, everything in the
      rebuilt tail still has a key no smaller than the head's. */
  lemma InsertedAboveHead<T>(x: T, s: seq<T>, tail: seq<T>, key: T -> int)
    requires |s| > 0 && key(s[0]) < key(x)
    requires multiset(tail) == multiset(s[1..]) + multiset{x}
    ensures Sorted(s, key) ==> forall y :: y in tail ==> key(s[0]) <= key(y)
  {
    if Sorted(s, key) {
      forall y | y in tail ensures key(s[0]) <= key(y) {
        assert y in multiset(tail);
        if y != x {
          assert y in multiset(s[1..]);
          var m :| 0 <= m < |s[1..]| && s[1..][m] == y;
          assert s[1 + m] == y;
        }
      }
    }
  }

  /** Insertion sort: the sort the executor relies on, stable by construction. */
  function SortBy<T>(s: seq<T>, key: T -> int): (r: seq<T>)
    ensures multiset(r) == multiset(s)
    ensures Sorted(r, key)
  {
    if |s| == 0 then
      []
    else
      assert s == [s[0]] + s[1..];
      Insert(s[0], SortBy(s[1..], key), key)
  }

  /** Position `i` holds the first occurrence of the smallest key of `s`. */
  ghost predicate FirstMinimum<T>(s: seq<T>, key: T -> int, i: int)
  {
    && 0 <= i < |s|
    && (forall j :: 0 <= j < |s| ==> key(s[i]) <= key(s[j]))
    && (forall j :: 0 <= j < i ==> key(s[i]) < key(s[j]))
  }

  /** A left-to-right scan for the first smallest key; the reference against
      which the head of a sorted sequence is checked. */
  function ArgMin<T>(s: seq<T>, key: T -> int): (i: nat)
    requires |s| > 0
    ensures FirstMinimum(s, key, i)
  {
    if |s| == 1 then
      0
    else
      var j := 1 + ArgMin(s[1..], key);
      assert forall k :: 1 <= k < |s| ==> s[k] == s[1..][k - 1];
      if key(s[0]) <= key(s[j]) then 0 else j
  }

  /** The head of the stable sort is the first element with the smallest key:
      this is what `OrderBy(...).FirstOrDefault()` picks. */
  lemma {:induction false} SortHeadIsFirstMinimum<T>(s: seq<T>, key: T -> int)
    requires |s| > 0
    ensures |SortBy(s, key)| == |s|
    ensures SortBy(s, key)[0] == s[ArgMin(s, key)]
  {
    assert |multiset(SortBy(s, key))| == |multiset(s)|;
    if |s| > 1 {
      var t := SortBy(s[1..], key);
      SortHeadIsFirstMinimum(s[1..], key);
      var j := 1 + ArgMin(s[1..], key);
      assert t[0] == s[j];
      assert forall k :: 1 <= k < |s| ==> s[k] == s[1..][k - 1];
    }
  }

  /** `a` comes before `b` in the order a stable sort produces. */
  ghost predicate StablyBefore<T>(a: T, b: T, key: T -> int, rank: T -> int)
  {
    key(a) < key(b) || (key(a) == key(b) && rank(a) < rank(b))
  }

  lemma PrependKeepsStableOrder<T>(h: T, t: seq<T>, key: T -> int, rank: T -> int)
    requires StablySorted(t, key, rank)
    requires forall y :: y in t ==> StablyBefore(h, y, key, rank)
    ensures StablySorted([h] + t, key, rank)
  {
    var r := [h] + t;
    forall i, j | 0 <= i < j < |r|
      ensures key(r[i]) < key(r[j]) || (key(r[i]) == key(r[j]) && rank(r[i]) < rank(r[j]))
    {
      assert r[j] == t[j - 1] && r[j] in t;
      if i > 0 {
        assert r[i] == t[i - 1];
      }
    }
  }

  /** When `x` goes past the head of a stably sorted `s`, everything in the
      rebuilt tail still comes after the head. */
  lemma InsertedAfterHead<T>(x: T, s: seq<T>, tail: seq<T>, key: T -> int, rank: T -> int)
    requires StablySorted(s, key, rank) && |s| > 0 && key(s[0]) < key(x)
    requires multiset(tail) == multiset(s[1..]) + multiset{x}
    ensures forall y :: y in tail ==> StablyBefore(s[0], y, key, rank)
  {
    forall y | y in tail ensures StablyBefore(s[0], y, key, rank) {
      assert y in multiset(tail);
      if y != x {
        assert y in multiset(s[1..]);
        var m :| 0 <= m < |s[1..]| && s[1..][m] == y;
        assert s[1 + m] == y;
      }
    }
  }

  lemma {:induction false} InsertKeepsStableOrder<T>(x: T, s: seq<T>, key: T -> int, rank: T -> int)
    requires StablySorted(s, key, rank)
    requires forall y :: y in s ==> rank(x) < rank(y)
    ensures StablySorted(Insert(x, s, key), key, rank)
  {
    if |s| == 0 || key(x) <= key(s[0]) {
      forall y | y in s ensures StablyBefore(x, y, key, rank) {
        var j :| 0 <= j < |s| && s[j] == y;
        if j > 0 {
          assert key(s[0]) <= key(s[j]);
        }
      }
      PrependKeepsStableOrder(x, s, key, rank);
    } else {
      var tail := Insert(x, s[1..], key);
      assert s == [s[0]] + s[1..];
      forall y | y in s[1..] ensures rank(x) < rank(y) {
        assert y in s;
      }
      assert StablySorted(s[1..], key, rank) by {
        forall i, j | 0 <= i < j < |s[1..]|
          ensures StablyBefore(s[1..][i], s[1..][j], key, rank)
        {
          assert s[1..][i] == s[i + 1] && s[1..][j] == s[j + 1];
        }
      }
      InsertKeepsStableOrder(x, s[1..], key, rank);
      InsertedAfterHead(x, s, tail, key, rank);
      PrependKeepsStableOrder(s[0], tail, key, rank);
    }
  }

  /** The sort is stable: sorting a sequence whose `rank` increases along it
      yields a sequence ordered by key and, on equal keys, by rank. */
  lemma {:induction false} SortByIsStable<T>(s: seq<T>, key: T -> int, rank: T -> int)
    requires Ranked(s, rank)
    ensures StablySorted(SortBy(s, key), key, rank)
  {
    if |s| > 0 {
      var t := SortBy(s[1..], key);
      assert Ranked(s[1..], rank) by {
        forall i, j | 0 <= i < j < |s[1..]| ensures rank(s[1..][i]) < rank(s[1..][j]) {
          assert s[1..][i] == s[i + 1] && s[1..][j] == s[j + 1];
        }
      }
      SortByIsStable(s[1..], key, rank);
      forall y | y in t ensures rank(s[0]) < rank(y) {
        assert y in multiset(s[1..]);
        var m :| 0 <= m < |s[1..]| && s[1..][m] == y;
        assert s[1 + m] == y;
      }
      InsertKeepsStableOrder(s[0], t, key, rank);
    }
  }
}
