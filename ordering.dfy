/**
 * Orderings used by the store's queries: `ORDER BY k1 DESC, k2 DESC LIMIT n`.
 * A row's sort key is a sequence of integers compared lexicographically, so that
 * one order serves every query. Ties between equal keys have no defined order in
 * SQLite; `IsTopK` states what every admissible answer satisfies, and `TopK` is one
 * such answer (a stable sort, so tied rows keep their incoming order).
 */
module Ordering {
  import opened Wrappers

  /** Lexicographic order on keys; a proper prefix sorts first. */
  predicate KeyLe(a: seq<int>, b: seq<int>)
    decreases |a|
  {
    |a| == 0 || (|b| > 0 && (a[0] < b[0] || (a[0] == b[0] && KeyLe(a[1..], b[1..]))))
  }

  lemma {:induction false} KeyLeReflexive(a: seq<int>)
    ensures KeyLe(a, a)
    decreases |a|
  {
    if |a| > 0 {
      KeyLeReflexive(a[1..]);
    }
  }

  lemma {:induction false} KeyLeTotal(a: seq<int>, b: seq<int>)
    ensures KeyLe(a, b) || KeyLe(b, a)
    decreases |a|
  {
    if |a| > 0 && |b| > 0 && a[0] == b[0] {
      KeyLeTotal(a[1..], b[1..]);
    }
  }

  lemma {:induction false} KeyLeTransitive(a: seq<int>, b: seq<int>, c: seq<int>)
    requires KeyLe(a, b) && KeyLe(b, c)
    ensures KeyLe(a, c)
    decreases |a|
  {
    if |a| > 0 && a[0] == b[0] && b[0] == c[0] {
      KeyLeTransitive(a[1..], b[1..], c[1..]);
    }
  }

  /** Ordered by descending key: no later element has a larger key than an earlier one. */
  ghost predicate SortedDesc<T>(xs: seq<T>, key: T -> seq<int>)
  {
    forall i, j :: 0 <= i < j < |xs| ==> KeyLe(key(xs[j]), key(xs[i]))
  }

  /** Places x before the first element whose key is not larger than x's. */
  function Insert<T>(x: T, xs: seq<T>, key: T -> seq<int>): seq<T>
  {
    if xs == [] then [x]
    else if KeyLe(key(xs[0]), key(x)) then [x] + xs
    else [xs[0]] + Insert(x, xs[1..], key)
  }

  /** Insertion sort by descending key. */
  function SortDesc<T>(xs: seq<T>, key: T -> seq<int>): seq<T>
  {
    if xs == [] then [] else Insert(xs[0], SortDesc(xs[1..], key), key)
  }

  /** Inserting adds exactly one occurrence of x. */
  lemma {:induction false} InsertPermutes<T>(x: T, xs: seq<T>, key: T -> seq<int>)
    ensures multiset(Insert(x, xs, key)) == multiset(xs) + multiset{x}
  {
    if xs != [] && !KeyLe(key(xs[0]), key(x)) {
      InsertPermutes(x, xs[1..], key);
      assert xs == [xs[0]] + xs[1..];
    }
  }

  /** Inserting into a descending sequence keeps it descending. */
  lemma {:induction false} InsertSorted<T>(x: T, xs: seq<T>, key: T -> seq<int>)
    requires SortedDesc(xs, key)
    ensures SortedDesc(Insert(x, xs, key), key)
  {
    if xs == [] {
    } else if KeyLe(key(xs[0]), key(x)) {
      var r := [x] + xs;
      forall i, j | 0 <= i < j < |r|
        ensures KeyLe(key(r[j]), key(r[i]))
      {
        if i == 0 {
          if j > 1 {
            KeyLeTransitive(key(xs[j - 1]), key(xs[0]), key(x));
          }
        } else {
          assert r[i] == xs[i - 1] && r[j] == xs[j - 1];
        }
      }
    } else {
      KeyLeTotal(key(xs[0]), key(x));
      var tail := xs[1..];
      assert SortedDesc(tail, key) by {
        assert forall i :: 0 <= i < |tail| ==> tail[i] == xs[i + 1];
      }
      InsertSorted(x, tail, key);
      InsertPermutes(x, tail, key);
      var rest := Insert(x, tail, key);
      var r := [xs[0]] + rest;
      forall i, j | 0 <= i < j < |r|
        ensures KeyLe(key(r[j]), key(r[i]))
      {
        if i == 0 {
          var y := rest[j - 1];
          assert y in multiset(rest);
          if y != x {
            assert y in multiset(tail);
            var k :| 0 <= k < |tail| && tail[k] == y;
            assert xs[k + 1] == y;
          }
        } else {
          assert r[i] == rest[i - 1] && r[j] == rest[j - 1];
        }
      }
    }
  }

  lemma {:induction false} SortDescCorrect<T>(xs: seq<T>, key: T -> seq<int>)
    ensures multiset(SortDesc(xs, key)) == multiset(xs)
    ensures SortedDesc(SortDesc(xs, key), key)
  {
    if xs != [] {
      SortDescCorrect(xs[1..], key);
      InsertPermutes(xs[0], SortDesc(xs[1..], key), key);
      InsertSorted(xs[0], SortDesc(xs[1..], key), key);
      assert xs == [xs[0]] + xs[1..];
    }
  }

  /**
   * r is an admissible answer to "ORDER BY key DESC LIMIT limit" over the rows xs:
   * as many rows as the limit allows, drawn from xs, in descending key order, and no
   * row left out has a larger key than a row returned.
   */
  ghost predicate IsTopK<T>(r: seq<T>, xs: seq<T>, key: T -> seq<int>, limit: nat)
  {
    && |r| == Min(limit, |xs|)
    && multiset(r) <= multiset(xs)
    && SortedDesc(r, key)
    && forall x, y :: x in multiset(xs) - multiset(r) && y in r ==> KeyLe(key(x), key(y))
  }

  /** The first `limit` rows of the stable descending sort. */
  function TopK<T>(xs: seq<T>, key: T -> seq<int>, limit: nat): seq<T>
  {
    var s := SortDesc(xs, key);
    s[..Min(limit, |s|)]
  }

  lemma TopKCorrect<T>(xs: seq<T>, key: T -> seq<int>, limit: nat)
    ensures IsTopK(TopK(xs, key, limit), xs, key, limit)
  {
    var s := SortDesc(xs, key);
    SortDescCorrect(xs, key);
    assert |s| == |xs| by {
      assert |multiset(s)| == |multiset(xs)|;
    }
    var k := Min(limit, |s|);
    var r := s[..k];
    var dropped := s[k..];
    assert multiset(s) == multiset(r) + multiset(dropped) by {
      assert s == r + dropped;
    }
    assert SortedDesc(r, key) by {
      assert forall i :: 0 <= i < |r| ==> r[i] == s[i];
    }
    forall x, y | x in multiset(xs) - multiset(r) && y in r
      ensures KeyLe(key(x), key(y))
    {
      assert x in multiset(dropped);
      var i :| 0 <= i < |dropped| && dropped[i] == x;
      var j :| 0 <= j < |r| && r[j] == y;
      assert s[k + i] == x && s[j] == y;
    }
  }

  /** An answer drawn from rows without duplicates has no duplicates either. */
  lemma TopKNoDuplicates<T>(r: seq<T>, xs: seq<T>, key: T -> seq<int>, limit: nat)
    requires IsTopK(r, xs, key, limit)
    requires forall i, j :: 0 <= i < j < |xs| ==> xs[i] != xs[j]
    ensures forall i, j :: 0 <= i < j < |r| ==> r[i] != r[j]
  {
    forall i, j | 0 <= i < j < |r|
      ensures r[i] != r[j]
    {
      if r[i] == r[j] {
        RepeatedCount(r, i, j);
        DistinctCount(xs, r[i]);
        assert false;
      }
    }
  }

  lemma RepeatedCount<T>(r: seq<T>, i: nat, j: nat)
    requires i < j < |r| && r[i] == r[j]
    ensures multiset(r)[r[i]] >= 2
  {
    var x := r[i];
    assert r == r[..i] + [x] + r[i + 1..j] + [x] + r[j + 1..];
  }

  lemma {:induction false} DistinctCount<T>(xs: seq<T>, x: T)
    requires forall i, j :: 0 <= i < j < |xs| ==> xs[i] != xs[j]
    ensures multiset(xs)[x] <= 1
  {
    if xs != [] {
      DistinctCount(xs[1..], x);
      assert xs == [xs[0]] + xs[1..];
      if xs[0] == x {
        assert x !in xs[1..];
      }
    }
  }

  /** The ids 1..n that satisfy p, in ascending (rowid) order. */
  function IdsWhere(n: nat, p: int -> bool): (r: seq<int>)
    ensures forall x :: x in r <==> 1 <= x <= n && p(x)
    ensures forall i :: 0 <= i < |r| ==> 1 <= r[i] <= n
    ensures forall i, j :: 0 <= i < j < |r| ==> r[i] < r[j]
  {
    if n == 0 then []
    else
      var prev := IdsWhere(n - 1, p);
      prev + (if p(n) then [n] else [])
  }

  /** Comparing two keys made of equally long heads compares the heads first. */
  lemma {:induction false} KeyLeSplit(a: seq<int>, b: seq<int>, a2: seq<int>, b2: seq<int>)
    requires |a| == |a2| && KeyLe(a + b, a2 + b2)
    ensures KeyLe(a, a2)
    ensures a == a2 ==> KeyLe(b, b2)
    decreases |a|
  {
    if |a| > 0 {
      assert (a + b)[1..] == a[1..] + b && (a2 + b2)[1..] == a2[1..] + b2;
      if a[0] == a2[0] {
        KeyLeSplit(a[1..], b, a2[1..], b2);
      }
    } else {
      assert a + b == b && a2 + b2 == b2;
    }
  }

  /**
   * `SELECT id ... WHERE ... ORDER BY key DESC LIMIT limit` over distinct ids: the
   * answer holds only candidates, each once, all of them when they fit, in
   * descending key order, and no candidate left out outranks one returned.
   */
  lemma TopKOfIds(ids: seq<int>, key: int -> seq<int>, limit: nat)
    requires forall i, j :: 0 <= i < j < |ids| ==> ids[i] < ids[j]
    ensures var r := TopK(ids, key, limit);
      && |r| == Min(limit, |ids|)
      && (forall x :: x in r ==> x in ids)
      && (|ids| <= limit ==> forall x :: x in ids ==> x in r)
      && (forall i, j :: 0 <= i < j < |r| ==> r[i] != r[j])
      && SortedDesc(r, key)
      && (forall x, y :: x in ids && x !in r && y in r ==> KeyLe(key(x), key(y)))
  {
    var r := TopK(ids, key, limit);
    TopKCorrect(ids, key, limit);
    TopKNoDuplicates(r, ids, key, limit);
    forall x | x in r
      ensures x in ids
    {
      assert x in multiset(r);
    }
    if |ids| <= limit {
      forall x | x in ids
        ensures x in r
      {
        assert |multiset(r)| == |multiset(ids)|;
        MultisetSubsetEqualSize(multiset(r), multiset(ids));
        assert x in multiset(ids);
      }
    }
    forall x, y | x in ids && x !in r && y in r
      ensures KeyLe(key(x), key(y))
    {
      assert x in multiset(ids) - multiset(r);
    }
  }

  /** `TopKOfIds` over the ids 1..n satisfying p: which ids the answer holds. */
  lemma TopKWhereMembers(n: nat, p: int -> bool, key: int -> seq<int>, limit: nat)
    ensures var r := TopK(IdsWhere(n, p), key, limit);
      && |r| <= limit
      && (forall x :: x in r ==> 1 <= x <= n && p(x))
      && (forall i, j :: 0 <= i < j < |r| ==> r[i] != r[j])
      && (|r| < limit ==> forall x :: 1 <= x <= n && p(x) ==> x in r)
  {
    TopKOfIds(IdsWhere(n, p), key, limit);
  }

  /** `TopKOfIds` over the ids 1..n satisfying p: the answer is in descending key order. */
  lemma TopKWhereSorted(n: nat, p: int -> bool, key: int -> seq<int>, limit: nat)
    ensures SortedDesc(TopK(IdsWhere(n, p), key, limit), key)
  {
    TopKOfIds(IdsWhere(n, p), key, limit);
  }

  /** `TopKOfIds` over the ids 1..n satisfying p: no candidate left out outranks one returned. */
  lemma TopKWhereOutranked(n: nat, p: int -> bool, key: int -> seq<int>, limit: nat)
    ensures var r := TopK(IdsWhere(n, p), key, limit);
      forall x, y :: 1 <= x <= n && p(x) && x !in r && y in r ==> KeyLe(key(x), key(y))
  {
    TopKOfIds(IdsWhere(n, p), key, limit);
  }

  lemma MultisetSubsetEqualSize<T>(a: multiset<T>, b: multiset<T>)
    requires a <= b && |a| == |b|
    ensures a == b
  {
    var d := b - a;
    assert b == a + d;
    assert |d| == 0;
  }
}
