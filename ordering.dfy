/**
 * Python's `sorted` on values compared by a string key: `str` comparison is
 * lexicographic on code points, a proper prefix coming first. Sibling paths
 * under one directory compare as their names do, which is how the book
 * builder orders section directories and chapter files.
 */
module Ordering {

  /** `a <= b` on Python strings. */
  predicate Lte(a: string, b: string)
  {
    |a| == 0 || (|b| > 0 && (a[0] < b[0] || (a[0] == b[0] && Lte(a[1..], b[1..]))))
  }

  lemma {:induction false} LteTotal(a: string, b: string)
    ensures Lte(a, b) || Lte(b, a)
  {
    if |a| > 0 && |b| > 0 && a[0] == b[0] {
      LteTotal(a[1..], b[1..]);
    }
  }

  lemma {:induction false} LteTrans(a: string, b: string, c: string)
    requires Lte(a, b) && Lte(b, c)
    ensures Lte(a, c)
  {
    if |a| > 0 && |b| > 0 && |c| > 0 && a[0] == b[0] && b[0] == c[0] {
      LteTrans(a[1..], b[1..], c[1..]);
    }
  }

  lemma {:induction false} LteAntisymmetric(a: string, b: string)
    requires Lte(a, b) && Lte(b, a)
    ensures a == b
  {
    if |a| > 0 && |b| > 0 {
      LteAntisymmetric(a[1..], b[1..]);
      assert a == [a[0]] + a[1..] && b == [b[0]] + b[1..];
    }
  }

  predicate SortedBy<T>(xs: seq<T>, key: T -> string)
  {
    forall i, j :: 0 <= i < j < |xs| ==> Lte(key(xs[i]), key(xs[j]))
  }

  function Insert<T>(x: T, ys: seq<T>, key: T -> string): (r: seq<T>)
    ensures |r| == |ys| + 1
  {
    if |ys| == 0 then [x]
    else if Lte(key(x), key(ys[0])) then [x] + ys
    else [ys[0]] + Insert(x, ys[1..], key)
  }

  /** `sorted(xs, key=key)`. */
  function SortBy<T>(xs: seq<T>, key: T -> string): (r: seq<T>)
    ensures |r| == |xs|
  {
    if |xs| == 0 then [] else Insert(xs[0], SortBy(xs[1..], key), key)
  }

  lemma {:induction false} InsertPermutes<T>(x: T, ys: seq<T>, key: T -> string)
    ensures multiset(Insert(x, ys, key)) == multiset(ys) + multiset{x}
  {
    if |ys| > 0 && !Lte(key(x), key(ys[0])) {
      InsertPermutes(x, ys[1..], key);
      assert ys == [ys[0]] + ys[1..];
    }
  }

  lemma {:induction false} InsertSorted<T>(x: T, ys: seq<T>, key: T -> string)
    requires SortedBy(ys, key)
    ensures SortedBy(Insert(x, ys, key), key)
  {
    if |ys| == 0 {
    } else if Lte(key(x), key(ys[0])) {
      InsertFront(x, ys, key);
    } else {
      LteTotal(key(x), key(ys[0]));
      InsertSorted(x, ys[1..], key);
      InsertPermutes(x, ys[1..], key);
      InsertBehind(ys[0], Insert(x, ys[1..], key), x, ys[1..], key);
    }
  }

  /** An item no greater than the first of a sorted list goes in front. */
  lemma InsertFront<T>(x: T, ys: seq<T>, key: T -> string)
    requires SortedBy(ys, key) && |ys| > 0 && Lte(key(x), key(ys[0]))
    ensures SortedBy([x] + ys, key)
  {
    var r := [x] + ys;
    forall i, j | 0 <= i < j < |r| ensures Lte(key(r[i]), key(r[j])) {
      if i == 0 && j > 1 {
        LteTrans(key(x), key(ys[0]), key(ys[j - 1]));
      }
    }
  }

  /** A head no greater than any item of a sorted rest, made of `x` and
      the items of `ys`, keeps the list sorted. */
  lemma InsertBehind<T>(head: T, rest: seq<T>, x: T, ys: seq<T>, key: T -> string)
    requires SortedBy(rest, key) && multiset(rest) == multiset(ys) + multiset{x}
    requires Lte(key(head), key(x))
    requires forall y :: y in ys ==> Lte(key(head), key(y))
    ensures SortedBy([head] + rest, key)
  {
    forall j | 0 <= j < |rest| ensures Lte(key(head), key(rest[j])) {
      assert rest[j] in multiset(rest);
    }
    var r := [head] + rest;
    forall i, j | 0 <= i < j < |r| ensures Lte(key(r[i]), key(r[j])) {
      if i > 0 {
        assert r[i] == rest[i - 1] && r[j] == rest[j - 1];
      } else {
        assert r[j] == rest[j - 1];
      }
    }
  }

  /** `sorted` returns the same items, in key order. */
  lemma {:induction false} SortByCorrect<T>(xs: seq<T>, key: T -> string)
    ensures SortedBy(SortBy(xs, key), key)
    ensures multiset(SortBy(xs, key)) == multiset(xs)
  {
    if |xs| > 0 {
      SortByCorrect(xs[1..], key);
      InsertSorted(xs[0], SortBy(xs[1..], key), key);
      InsertPermutes(xs[0], SortBy(xs[1..], key), key);
      assert xs == [xs[0]] + xs[1..];
    }
  }
}
