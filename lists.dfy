/**
 * Sequence folds shared by the listing routes and the pages: `Array.prototype.filter`,
 * a stable sort by an integer key (the store's `order` and numeric `sort((a, b) => a - b)`),
 * and the default `sort()` of strings.
 */
module Lists {

  // ----- filter -----

  /** `s.filter(p)`: the elements satisfying `p`, in their original order. */
  function Filter<T(!new)>(s: seq<T>, p: T -> bool): (r: seq<T>)
    ensures |r| <= |s|
    ensures forall x :: x in r <==> x in s && p(x)
    decreases |s|
  {
    if s == [] then [] else (if p(s[0]) then [s[0]] else []) + Filter(s[1..], p)
  }

  /** Filtering distributes over concatenation, so a fold over a growing prefix can be stated with it. */
  lemma {:induction false} FilterAppend<T(!new)>(s: seq<T>, t: seq<T>, p: T -> bool)
    ensures Filter(s + t, p) == Filter(s, p) + Filter(t, p)
    decreases |s|
  {
    if s == [] {
      assert s + t == t;
    } else {
      assert (s + t)[1..] == s[1..] + t;
      FilterAppend(s[1..], t, p);
    }
  }

  /** A filter that every element passes keeps the sequence as it is. */
  lemma {:induction false} FilterKeepsAll<T(!new)>(s: seq<T>, p: T -> bool)
    requires forall x :: x in s ==> p(x)
    ensures Filter(s, p) == s
    decreases |s|
  {
    if s != [] {
      FilterKeepsAll(s[1..], p);
    }
  }

  /** A filter that no element passes leaves nothing. */
  lemma {:induction false} FilterNone<T(!new)>(s: seq<T>, p: T -> bool)
    requires forall x :: x in s ==> !p(x)
    ensures Filter(s, p) == []
    decreases |s|
  {
    if s != [] {
      FilterNone(s[1..], p);
    }
  }

  /** Filters with predicates that agree on every element give the same result. */
  lemma {:induction false} FilterCongruent<T(!new)>(s: seq<T>, p: T -> bool, q: T -> bool)
    requires forall x :: x in s ==> p(x) == q(x)
    ensures Filter(s, p) == Filter(s, q)
    decreases |s|
  {
    if s != [] {
      FilterCongruent(s[1..], p, q);
    }
  }

  /** Every element of a filter comes from the input, so filtering keeps counts at most as large. */
  lemma {:induction false} FilterSubMultiset<T(!new)>(s: seq<T>, p: T -> bool)
    ensures multiset(Filter(s, p)) <= multiset(s)
    decreases |s|
  {
    if s != [] {
      FilterSubMultiset(s[1..], p);
      assert s == [s[0]] + s[1..];
    }
  }

  /** Filtering twice is filtering once by any predicate equivalent to the conjunction. */
  lemma {:induction false} FilterFilter<T(!new)>(s: seq<T>, p: T -> bool, q: T -> bool, r: T -> bool)
    requires forall x :: r(x) == (p(x) && q(x))
    ensures Filter(Filter(s, p), q) == Filter(s, r)
    decreases |s|
  {
    if s != [] {
      FilterFilter(s[1..], p, q, r);
      var head := if p(s[0]) then [s[0]] else [];
      FilterAppend(head, Filter(s[1..], p), q);
      if p(s[0]) {
        assert Filter(head, q) == (if q(s[0]) then [s[0]] else []) by {
          assert head[1..] == [];
        }
      }
    }
  }

  // ----- stable sort by an integer key -----

  ghost predicate SortedBy<T>(s: seq<T>, key: T -> int) {
    forall i, j :: 0 <= i < j < |s| ==> key(s[i]) <= key(s[j])
  }

  /** Inserts `x` before the first element with a larger key. */
  function InsertBy<T>(x: T, s: seq<T>, key: T -> int): seq<T>
    decreases |s|
  {
    if s == [] || key(x) <= key(s[0]) then [x] + s else [s[0]] + InsertBy(x, s[1..], key)
  }

  lemma {:induction false} InsertByPermutes<T>(x: T, s: seq<T>, key: T -> int)
    ensures multiset(InsertBy(x, s, key)) == multiset(s) + multiset{x}
    decreases |s|
  {
    if s != [] && key(x) > key(s[0]) {
      InsertByPermutes(x, s[1..], key);
      assert s == [s[0]] + s[1..];
    }
  }

  lemma {:induction false} InsertBySorted<T>(x: T, s: seq<T>, key: T -> int)
    requires SortedBy(s, key)
    ensures SortedBy(InsertBy(x, s, key), key)
    decreases |s|
  {
    if s != [] && key(x) > key(s[0]) {
      var rest := InsertBy(x, s[1..], key);
      InsertBySorted(x, s[1..], key);
      InsertByPermutes(x, s[1..], key);
      SortedTail(s, key);
      forall y | y in rest ensures key(s[0]) <= key(y) {
        assert y in multiset(rest);
      }
      SortedCons(s[0], rest, key);
    }
  }

  /** The head of a sorted sequence is no larger than anything after it. */
  lemma SortedTail<T>(s: seq<T>, key: T -> int)
    requires SortedBy(s, key) && s != []
    ensures forall y :: y in multiset(s[1..]) ==> key(s[0]) <= key(y)
  {
    forall y | y in multiset(s[1..]) ensures key(s[0]) <= key(y) {
      var k :| 0 <= k < |s[1..]| && s[1..][k] == y;
      assert s[k + 1] == y;
    }
  }

  /** A sorted sequence stays sorted with a head no larger than any of its elements. */
  lemma SortedCons<T>(h: T, t: seq<T>, key: T -> int)
    requires SortedBy(t, key)
    requires forall y :: y in t ==> key(h) <= key(y)
    ensures SortedBy([h] + t, key)
  {
    forall i, j | 0 <= i < j < |[h] + t|
      ensures key(([h] + t)[i]) <= key(([h] + t)[j])
    {
      if i == 0 {
        assert ([h] + t)[j] == t[j - 1];
      } else {
        assert ([h] + t)[i] == t[i - 1] && ([h] + t)[j] == t[j - 1];
      }
    }
  }

  /** Insertion sort by `key`, ascending and stable. */
  function SortBy<T>(s: seq<T>, key: T -> int): (r: seq<T>)
    ensures SortedBy(r, key)
    ensures multiset(r) == multiset(s)
    decreases |s|
  {
    if s == [] then []
    else
      assert s == [s[0]] + s[1..];
      InsertBySorted(s[0], SortBy(s[1..], key), key);
      InsertByPermutes(s[0], SortBy(s[1..], key), key);
      InsertBy(s[0], SortBy(s[1..], key), key)
  }

  /**
   * The listing order of the store: the rows kept by `keep`, newest `createdAt` first.
   * Exactly the kept rows appear, each as often as in `rows`, in non-increasing `createdAt`.
   */
  function NewestFirst<T(!new)>(rows: seq<T>, keep: T -> bool, createdAt: T -> int): (r: seq<T>)
    ensures multiset(r) == multiset(Filter(rows, keep))
    ensures forall x :: x in r <==> x in rows && keep(x)
    ensures forall i, j :: 0 <= i < j < |r| ==> createdAt(r[i]) >= createdAt(r[j])
  {
    var kept := Filter(rows, keep);
    var r := SortBy(kept, x => -createdAt(x));
    assert forall x :: x in r <==> x in multiset(kept);
    r
  }

  /** A kept row strictly newer than every other row is listed first. */
  lemma NewestIsFirst<T(!new)>(rows: seq<T>, keep: T -> bool, createdAt: T -> int, x: T)
    requires x in rows && keep(x)
    requires forall y :: y in rows && y != x ==> createdAt(y) < createdAt(x)
    ensures |NewestFirst(rows, keep, createdAt)| > 0
    ensures NewestFirst(rows, keep, createdAt)[0] == x
  {
    var r := NewestFirst(rows, keep, createdAt);
    assert x in r;
    var k :| 0 <= k < |r| && r[k] == x;
  }

  // ----- distinct elements -----

  ghost predicate Distinct<T>(s: seq<T>) {
    forall i, j :: 0 <= i < j < |s| ==> s[i] != s[j]
  }

  lemma {:induction false} DistinctCount<T>(s: seq<T>, x: T)
    requires Distinct(s)
    ensures multiset(s)[x] <= 1
    decreases |s|
  {
    if s != [] {
      assert s == [s[0]] + s[1..];
      DistinctCount(s[1..], x);
      if x == s[0] {
        assert x !in s[1..];
      }
    }
  }

  /** Filtering a sequence without repeats leaves none. */
  lemma {:induction false} FilterDistinct<T(!new)>(s: seq<T>, p: T -> bool)
    requires Distinct(s)
    ensures Distinct(Filter(s, p))
    decreases |s|
  {
    if s != [] {
      FilterDistinct(s[1..], p);
      var rest := Filter(s[1..], p);
      assert s[0] !in s[1..] by {
        forall j | 0 <= j < |s[1..]| ensures s[1..][j] != s[0] {
          assert s[1..][j] == s[j + 1];
        }
      }
      assert s[0] !in rest;
    }
  }

  /** A permutation of a sequence without repeats has no repeats either. */
  lemma DistinctPermutation<T>(s: seq<T>, r: seq<T>)
    requires Distinct(s)
    requires multiset(r) == multiset(s)
    ensures Distinct(r)
  {
    forall i, j | 0 <= i < j < |r|
      ensures r[i] != r[j]
    {
      if r[i] == r[j] {
        assert r == r[..j] + r[j..];
        assert r[i] in r[..j];
        assert r[j] in r[j..];
        assert multiset(r)[r[i]] >= 2;
        DistinctCount(s, r[i]);
      }
    }
  }

  // ----- strings in code-unit order -----

  /** The default string order of `Array.prototype.sort`: lexicographic on characters. */
  predicate LexLe(a: string, b: string)
    decreases |a|
  {
    if a == [] then true
    else if b == [] then false
    else if a[0] != b[0] then a[0] < b[0]
    else LexLe(a[1..], b[1..])
  }

  lemma {:induction false} LexLeTotal(a: string, b: string)
    ensures LexLe(a, b) || LexLe(b, a)
    decreases |a|
  {
    if a != [] && b != [] && a[0] == b[0] {
      LexLeTotal(a[1..], b[1..]);
    }
  }

  lemma {:induction false} LexLeTransitive(a: string, b: string, c: string)
    requires LexLe(a, b) && LexLe(b, c)
    ensures LexLe(a, c)
    decreases |a|
  {
    if a != [] && b != [] && c != [] && a[0] == b[0] && b[0] == c[0] {
      LexLeTransitive(a[1..], b[1..], c[1..]);
    }
  }

  lemma {:induction false} LexLeAntisymmetric(a: string, b: string)
    requires LexLe(a, b) && LexLe(b, a)
    ensures a == b
    decreases |a|
  {
    if a != [] && b != [] {
      LexLeAntisymmetric(a[1..], b[1..]);
      assert a == [a[0]] + a[1..] && b == [b[0]] + b[1..];
    }
  }

  ghost predicate SortedStrings(s: seq<string>) {
    forall i, j :: 0 <= i < j < |s| ==> LexLe(s[i], s[j])
  }

  /** Inserts `x` before the first string above it. */
  function InsertString(x: string, s: seq<string>): seq<string>
    decreases |s|
  {
    if s == [] || LexLe(x, s[0]) then [x] + s else [s[0]] + InsertString(x, s[1..])
  }

  lemma {:induction false} InsertStringSorted(x: string, s: seq<string>)
    requires SortedStrings(s)
    ensures SortedStrings(InsertString(x, s))
    ensures multiset(InsertString(x, s)) == multiset(s) + multiset{x}
    decreases |s|
  {
    if s == [] || LexLe(x, s[0]) {
      forall j | 0 <= j < |s|
        ensures LexLe(x, s[j])
      {
        if j > 0 { LexLeTransitive(x, s[0], s[j]); }
      }
    } else {
      LexLeTotal(x, s[0]);
      InsertStringSorted(x, s[1..]);
      var rest := InsertString(x, s[1..]);
      assert s == [s[0]] + s[1..];
      forall j | 0 <= j < |rest|
        ensures LexLe(s[0], rest[j])
      {
        assert rest[j] in multiset(rest);
        if rest[j] != x {
          assert rest[j] in multiset(s[1..]);
          var k :| 0 <= k < |s[1..]| && s[1..][k] == rest[j];
          assert s[k + 1] == rest[j];
        }
      }
    }
  }

  /** `keys.sort()`: ascending in string order, a permutation of the input. */
  function SortStrings(s: seq<string>): (r: seq<string>)
    ensures SortedStrings(r)
    ensures multiset(r) == multiset(s)
    decreases |s|
  {
    if s == [] then []
    else
      assert s == [s[0]] + s[1..];
      InsertStringSorted(s[0], SortStrings(s[1..]));
      InsertString(s[0], SortStrings(s[1..]))
  }

  /** Sorting distinct keys lists each exactly once, in strictly ascending order. */
  lemma SortDistinctStrings(s: seq<string>)
    requires Distinct(s)
    ensures Distinct(SortStrings(s))
    ensures forall x :: x in SortStrings(s) <==> x in s
    ensures forall i, j :: 0 <= i < j < |SortStrings(s)| ==> LexLe(SortStrings(s)[i], SortStrings(s)[j]) && SortStrings(s)[i] != SortStrings(s)[j]
  {
    var r := SortStrings(s);
    DistinctPermutation(s, r);
    assert forall x :: x in r <==> x in multiset(s);
  }
}
