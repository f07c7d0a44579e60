/**
 * Value-level semantics of the .NET list and LINQ operations the grid and the
 * hide-spot selector rely on: `List.Remove` (first occurrence), `List.Reverse`,
 * `Enumerable.Distinct` (first occurrences, in order), a `where`-style filter and
 * `Enumerable.OrderBy` (a stable sort on a key).
 */
module Collections {

  /** A .NET reference that may be null, or a call that may fail. */
  datatype Option<T> = None | Some(value: T)

  predicate NoDups<T(==)>(s: seq<T>) {
    forall i, j :: 0 <= i < j < |s| ==> s[i] != s[j]
  }

  lemma NoDupsTail<T>(s: seq<T>)
    requires NoDups(s) && s != []
    ensures NoDups(s[1..]) && s[0] !in s[1..]
  {
    forall k | 0 <= k < |s[1..]| ensures s[1..][k] != s[0] {
      assert s[1..][k] == s[k + 1];
    }
  }

  lemma NoDupsFront<T>(s: seq<T>)
    requires NoDups(s) && s != []
    ensures NoDups(s[..|s| - 1]) && s[|s| - 1] !in s[..|s| - 1]
  {
    var front := s[..|s| - 1];
    forall k | 0 <= k < |front| ensures front[k] != s[|s| - 1] {
      assert front[k] == s[k];
    }
  }

  lemma NoDupsSnoc<T>(s: seq<T>, x: T)
    requires NoDups(s) && x !in s
    ensures NoDups(s + [x])
  {
    forall i, j | 0 <= i < j < |s + [x]| ensures (s + [x])[i] != (s + [x])[j] {
      if j == |s| {
        assert (s + [x])[i] == s[i];
      }
    }
  }

  lemma NoDupsCons<T>(x: T, s: seq<T>)
    requires NoDups(s) && x !in s
    ensures NoDups([x] + s)
  {
    forall i, j | 0 <= i < j < |[x] + s| ensures ([x] + s)[i] != ([x] + s)[j] {
      if i == 0 {
        assert ([x] + s)[j] == s[j - 1];
      }
    }
  }

  lemma NoDupsConcat<T>(s: seq<T>, t: seq<T>)
    requires NoDups(s) && NoDups(t)
    requires forall x :: x in s ==> x !in t
    ensures NoDups(s + t)
  {
    forall i, j | 0 <= i < j < |s + t| ensures (s + t)[i] != (s + t)[j] {
      if j < |s| {
        assert (s + t)[i] == s[i] && (s + t)[j] == s[j];
      } else if i < |s| {
        assert (s + t)[i] == s[i] && (s + t)[j] == t[j - |s|];
        assert t[j - |s|] in t;
      } else {
        assert (s + t)[i] == t[i - |s|] && (s + t)[j] == t[j - |s|];
      }
    }
  }

  /** `List.Remove(x)`: drops the first occurrence of `x`, if any. */
  function Remove<T(==)>(s: seq<T>, x: T): (r: seq<T>)
    ensures multiset(r) == multiset(s) - multiset{x}
  {
    if s == [] then []
    else
      assert s == [s[0]] + s[1..];
      if s[0] == x then s[1..] else [s[0]] + Remove(s[1..], x)
  }

  /**
   * `Remove(x)` drops exactly the first occurrence of `x`, at position `i`, and
   * keeps the other elements in their order.
   */
  lemma {:induction false} RemoveFirst<T>(s: seq<T>, x: T, i: int)
    requires 0 <= i < |s| && s[i] == x && x !in s[..i]
    ensures Remove(s, x) == s[..i] + s[i + 1..]
  {
    if i == 0 {
      assert s[..0] + s[1..] == s[1..];
    } else {
      var t := s[1..];
      SlicesOfTail(s, i);
      assert s[0] != x by { assert s[0] in s[..i]; }
      RemoveFirst(t, x, i - 1);
      calc {
        Remove(s, x);
        [s[0]] + Remove(t, x);
        [s[0]] + (t[..i - 1] + t[i..]);
        s[..i] + s[i + 1..];
      }
    }
  }

  /** Cutting a list at `i` and cutting its tail at `i - 1` give the same pieces. */
  lemma SlicesOfTail<T>(s: seq<T>, i: int)
    requires 0 < i < |s|
    ensures s[1..][..i - 1] == s[1..i]
    ensures [s[0]] + (s[1..][..i - 1] + s[1..][i..]) == s[..i] + s[i + 1..]
  {
    assert s[..i] == [s[0]] + s[1..][..i - 1] && s[i + 1..] == s[1..][i..];
  }

  /** A list without `x` comes back from `Remove(x)` unchanged. */
  lemma {:induction false} RemoveAbsent<T>(s: seq<T>, x: T)
    requires x !in s
    ensures Remove(s, x) == s
  {
    if s != [] {
      var t := s[1..];
      assert s == [s[0]] + t;
      RemoveAbsent(t, x);
      calc {
        Remove(s, x);
        [s[0]] + Remove(t, x);
        [s[0]] + t;
      }
    }
  }

  /** On a list without duplicates, `Remove(x)` keeps all other elements and only them. */
  lemma {:induction false} RemoveUnique<T>(s: seq<T>, x: T)
    requires NoDups(s)
    ensures NoDups(Remove(s, x))
    ensures x !in Remove(s, x)
    ensures forall y :: y in Remove(s, x) <==> y in s && y != x
  {
    if s != [] {
      NoDupsTail(s);
      if s[0] != x {
        RemoveUnique(s[1..], x);
        NoDupsCons(s[0], Remove(s[1..], x));
      }
    }
  }

  /** The position of the first occurrence of `x`. */
  ghost function IndexOf<T>(s: seq<T>, x: T): (i: nat)
    requires x in s
    ensures i < |s| && s[i] == x && x !in s[..i]
  {
    if s[0] == x then 0 else
      var j := IndexOf(s[1..], x);
      assert s[1..][..j] == s[1..j + 1];
      1 + j
  }

  /** In a list without duplicates, every element's position is where it sits. */
  lemma IndexOfUnique<T>(s: seq<T>, j: int)
    requires NoDups(s) && 0 <= j < |s|
    ensures IndexOf(s, s[j]) == j
  {
  }

  /**
   * The entries of s carry strictly decreasing ranks above lo: each rank is the
   * entry's position in C, or |C| for the one entry `top` that is not in C.
   */
  ghost predicate Ranked<T>(s: seq<T>, ranks: seq<int>, C: seq<T>, lo: int, top: T) {
    -1 <= lo && |ranks| == |s| &&
    (forall k :: 0 <= k < |s| ==>
       lo < ranks[k] <= |C| && (ranks[k] < |C| ==> C[ranks[k]] == s[k]) && (ranks[k] == |C| ==> s[k] == top && top !in C)) &&
    (forall i, j :: 0 <= i < j < |s| ==> ranks[i] > ranks[j])
  }

  /** Appending an entry of rank r, itself above lo, keeps the ranks decreasing. */
  lemma RankedSnoc<T>(s: seq<T>, ranks: seq<int>, C: seq<T>, r: int, top: T, x: T, lo: int)
    requires Ranked(s, ranks, C, r, top) && -1 <= lo < r <= |C|
    requires r < |C| ==> C[r] == x
    requires r == |C| ==> x == top && top !in C
    ensures Ranked(s + [x], ranks + [r], C, lo, top)
  {
  }

  /** Entries with strictly decreasing ranks in a duplicate-free list are distinct. */
  lemma RankedNoDups<T>(s: seq<T>, ranks: seq<int>, C: seq<T>, top: T)
    requires NoDups(C) && Ranked(s, ranks, C, -1, top)
    ensures NoDups(s)
  {
    forall i, j | 0 <= i < j < |s| ensures s[i] != s[j] {
      if ranks[i] == |C| {
        assert s[j] == C[ranks[j]];
      }
    }
  }

  /** Reversing keeps a list free of duplicates. */
  lemma ReversedNoDups<T>(s: seq<T>)
    requires NoDups(s)
    ensures NoDups(Reversed(s))
  {
  }

  /** `List.Reverse()`, as a value. */
  function Reversed<T>(s: seq<T>): (r: seq<T>)
    ensures |r| == |s|
    ensures forall k :: 0 <= k < |s| ==> r[k] == s[|s| - 1 - k]
  {
    if s == [] then [] else [s[|s| - 1]] + Reversed(s[..|s| - 1])
  }

  lemma ReversedSnoc<T>(s: seq<T>, x: T)
    ensures Reversed(s + [x]) == [x] + Reversed(s)
  {
    assert (s + [x])[..|s|] == s;
  }

  /** Keeps, in order, the elements that satisfy `p`. */
  function Filter<T>(s: seq<T>, p: T -> bool): (r: seq<T>)
    ensures |r| <= |s|
    ensures forall k :: 0 <= k < |r| ==> r[k] in s && p(r[k])
    ensures forall k :: 0 <= k < |s| && p(s[k]) ==> s[k] in r
  {
    if s == [] then []
    else
      var prefix := s[..|s| - 1];
      var last := s[|s| - 1];
      assert s == prefix + [last];
      Filter(prefix, p) + (if p(last) then [last] else [])
  }

  lemma {:induction false} FilterNoDups<T>(s: seq<T>, p: T -> bool)
    requires NoDups(s)
    ensures NoDups(Filter(s, p))
  {
    if s != [] {
      var prefix := s[..|s| - 1];
      var last := s[|s| - 1];
      NoDupsFront(s);
      FilterNoDups(prefix, p);
      if p(last) {
        NoDupsSnoc(Filter(prefix, p), last);
      }
    }
  }

  /** The filtered list holds exactly the elements of `s` that satisfy `p`. */
  lemma FilterMembers<T>(s: seq<T>, p: T -> bool)
    ensures forall x :: x in Filter(s, p) <==> x in s && p(x)
  {
    forall x ensures x in Filter(s, p) <==> x in s && p(x) {
      if x in s && p(x) {
        var k :| 0 <= k < |s| && s[k] == x;
      }
      if x in Filter(s, p) {
        var k :| 0 <= k < |Filter(s, p)| && Filter(s, p)[k] == x;
      }
    }
  }

  /** `Enumerable.Distinct`: the first occurrence of every element, in order. */
  function Distinct<T(==)>(s: seq<T>): (r: seq<T>)
    ensures NoDups(r)
    ensures forall k :: 0 <= k < |r| ==> r[k] in s
    ensures forall k :: 0 <= k < |s| ==> s[k] in r
  {
    if s == [] then []
    else
      var prefix := s[..|s| - 1];
      var last := s[|s| - 1];
      assert s == prefix + [last];
      var d := Distinct(prefix);
      if last in d then d
      else
        NoDupsSnoc(d, last);
        d + [last]
  }

  /** Dropping repeats keeps every element. */
  lemma DistinctMembers<T>(s: seq<T>)
    ensures forall x :: x in Distinct(s) <==> x in s
  {
    forall x ensures x in Distinct(s) <==> x in s {
      if x in Distinct(s) {
        var k :| 0 <= k < |Distinct(s)| && Distinct(s)[k] == x;
      }
      if x in s {
        var k :| 0 <= k < |s| && s[k] == x;
      }
    }
  }

  /** `Distinct` leaves a list that has no duplicates unchanged. */
  lemma {:induction false} DistinctOfNoDups<T>(s: seq<T>)
    requires NoDups(s)
    ensures Distinct(s) == s
  {
    if s != [] {
      NoDupsFront(s);
      DistinctOfNoDups(s[..|s| - 1]);
      assert s == s[..|s| - 1] + [s[|s| - 1]];
    }
  }

  /** The elements of `s` whose key is `v`, in order. */
  function WithKey<T>(s: seq<T>, key: T -> real, v: real): (r: seq<T>) {
    if s == [] then []
    else if key(s[0]) == v then [s[0]] + WithKey(s[1..], key, v)
    else WithKey(s[1..], key, v)
  }

  predicate SortedBy<T>(s: seq<T>, key: T -> real) {
    forall i, j :: 0 <= i < j < |s| ==> key(s[i]) <= key(s[j])
  }

  /** Inserts `x` in front of the first element whose key is not smaller. */
  function Insert<T>(x: T, t: seq<T>, key: T -> real): (r: seq<T>)
    ensures multiset(r) == multiset(t) + multiset{x}
  {
    if t == [] || key(x) <= key(t[0]) then [x] + t
    else
      assert t == [t[0]] + t[1..];
      [t[0]] + Insert(x, t[1..], key)
  }

  lemma {:induction false} InsertSorted<T>(x: T, t: seq<T>, key: T -> real)
    requires SortedBy(t, key)
    ensures SortedBy(Insert(x, t, key), key)
  {
    if t != [] && key(x) > key(t[0]) {
      var tail := t[1..];
      assert SortedBy(tail, key) by {
        forall i, j | 0 <= i < j < |tail| ensures key(tail[i]) <= key(tail[j]) {
          assert tail[i] == t[i + 1] && tail[j] == t[j + 1];
        }
      }
      InsertSorted(x, tail, key);
      var rest := Insert(x, tail, key);
      var r := [t[0]] + rest;
      forall j | 0 < j < |r| ensures key(r[0]) <= key(r[j]) {
        var e := rest[j - 1];
        assert e in multiset(rest);
        if e != x {
          assert e in multiset(tail);
          var k :| 0 <= k < |tail| && tail[k] == e;
          assert t[k + 1] == e;
        }
      }
    }
  }

  /** The elements of [a] + s with key v: a when it has that key, then those of s. */
  lemma WithKeyCons<T>(a: T, s: seq<T>, key: T -> real, v: real)
    ensures WithKey([a] + s, key, v) == if key(a) == v then [a] + WithKey(s, key, v) else WithKey(s, key, v)
  {
    assert ([a] + s)[1..] == s;
  }

  /** Inserting x adds it to the elements with its key, ahead of them. */
  lemma {:induction false} InsertWithKey<T>(x: T, t: seq<T>, key: T -> real, v: real)
    ensures WithKey(Insert(x, t, key), key, v) == if key(x) == v then [x] + WithKey(t, key, v) else WithKey(t, key, v)
  {
    if t == [] || key(x) <= key(t[0]) {
      WithKeyCons(x, t, key, v);
    } else {
      InsertWithKey(x, t[1..], key, v);
      WithKeyCons(t[0], Insert(x, t[1..], key), key, v);
      // x's key exceeds that of t[0], so at most one of the two is kept.
      if key(x) == v {
        assert key(t[0]) != v;
      }
    }
  }

  /**
   * `Enumerable.OrderBy(key)`: a stable sort. Elements with equal keys keep the
   * relative order they had in `s`.
   */
  function OrderBy<T>(s: seq<T>, key: T -> real): (r: seq<T>)
    ensures multiset(r) == multiset(s)
  {
    if s == [] then []
    else
      assert s == [s[0]] + s[1..];
      Insert(s[0], OrderBy(s[1..], key), key)
  }

  /** Sorting neither adds nor drops an element. */
  lemma OrderByMembers<T>(s: seq<T>, key: T -> real)
    ensures forall x :: x in OrderBy(s, key) <==> x in s
  {
    forall x ensures x in OrderBy(s, key) <==> x in s {
      assert x in OrderBy(s, key) <==> x in multiset(OrderBy(s, key));
    }
  }

  lemma {:induction false} OrderBySorted<T>(s: seq<T>, key: T -> real)
    ensures SortedBy(OrderBy(s, key), key)
  {
    if s != [] {
      OrderBySorted(s[1..], key);
      InsertSorted(s[0], OrderBy(s[1..], key), key);
    }
  }

  /** Stability: for every key, the elements with that key come out in their input order. */
  lemma {:induction false} OrderByStable<T>(s: seq<T>, key: T -> real, v: real)
    ensures WithKey(OrderBy(s, key), key, v) == WithKey(s, key, v)
  {
    if s != [] {
      OrderByStable(s[1..], key, v);
      InsertWithKey(s[0], OrderBy(s[1..], key), key, v);
    }
  }

  lemma {:induction false} InsertNoDups<T>(x: T, t: seq<T>, key: T -> real)
    requires NoDups(t) && x !in t
    ensures NoDups(Insert(x, t, key))
  {
    if t == [] || key(x) <= key(t[0]) {
      NoDupsCons(x, t);
    } else {
      NoDupsTail(t);
      InsertNoDups(x, t[1..], key);
      var rest := Insert(x, t[1..], key);
      assert t[0] !in multiset(t[1..]) + multiset{x};
      assert t[0] !in multiset(rest);
      NoDupsCons(t[0], rest);
    }
  }

  /** Sorting a list without duplicates leaves it without duplicates. */
  lemma {:induction false} OrderByNoDups<T>(s: seq<T>, key: T -> real)
    requires NoDups(s)
    ensures NoDups(OrderBy(s, key))
  {
    if s != [] {
      NoDupsTail(s);
      OrderByNoDups(s[1..], key);
      var rest := OrderBy(s[1..], key);
      assert s[0] !in multiset(rest);
      InsertNoDups(s[0], rest, key);
    }
  }

  /** The first element of a non-empty sorted permutation has the least key. */
  lemma OrderByFirstIsLeast<T>(s: seq<T>, key: T -> real)
    requires s != []
    ensures |OrderBy(s, key)| == |s|
    ensures OrderBy(s, key)[0] in s
    ensures forall x :: x in s ==> key(OrderBy(s, key)[0]) <= key(x)
  {
    var r := OrderBy(s, key);
    OrderBySorted(s, key);
    assert |r| == |multiset(r)| == |multiset(s)| == |s|;
    assert r[0] in multiset(s);
    forall x | x in s ensures key(r[0]) <= key(x) {
      assert x in multiset(r);
      var k :| 0 <= k < |r| && r[k] == x;
    }
  }

  /**
   * Two elements with the same key appear among the elements with that key in
   * the order they have in `s`; with OrderByStable this is the usual statement
   * of a stable sort.
   */
  lemma {:induction false} WithKeyOrder<T>(s: seq<T>, key: T -> real, i: nat, j: nat) returns (a: nat, b: nat)
    requires i < j < |s| && key(s[i]) == key(s[j])
    ensures var w := WithKey(s, key, key(s[i])); a < b < |w| && w[a] == s[i] && w[b] == s[j]
  {
    var v := key(s[i]);
    var w := WithKey(s[1..], key, v);
    if i == 0 {
      b := WithKeyContains(s[1..], key, j - 1);
      a, b := 0, b + 1;
    } else {
      a, b := WithKeyOrder(s[1..], key, i - 1, j - 1);
      if key(s[0]) == v {
        a, b := a + 1, b + 1;
      }
    }
  }

  lemma {:induction false} WithKeyContains<T>(s: seq<T>, key: T -> real, j: nat) returns (b: nat)
    requires j < |s|
    ensures var w := WithKey(s, key, key(s[j])); b < |w| && w[b] == s[j]
  {
    var v := key(s[j]);
    if j == 0 {
      b := 0;
    } else {
      b := WithKeyContains(s[1..], key, j - 1);
      if key(s[0]) == v {
        b := b + 1;
      }
    }
  }

  /** A list without duplicates drawn from a finite set is no longer than the set. */
  lemma {:induction false} NoDupsBounded<T>(s: seq<T>, S: set<T>)
    requires NoDups(s)
    requires forall k :: 0 <= k < |s| ==> s[k] in S
    ensures |s| <= |S|
  {
    if s != [] {
      var last := s[|s| - 1];
      var front := s[..|s| - 1];
      NoDupsFront(s);
      forall k | 0 <= k < |front| ensures front[k] in S - {last} {
        assert front[k] == s[k];
      }
      NoDupsBounded(front, S - {last});
    }
  }
}
