/** Sequence operations behind the site's `Array.prototype.filter`, `sort`
    with a numeric descending comparator, and `[...new Set(xs)].sort((a, b) => b - a)`. */
module Lists {
  import opened Wrappers

  /** `xs.filter(p)`: the elements of `xs` that satisfy `p`, in order. */
  function Filter<T(!new)>(xs: seq<T>, p: T -> bool): (r: seq<T>)
    ensures |r| <= |xs|
    ensures forall i :: 0 <= i < |r| ==> p(r[i])
  {
    if xs == [] then []
    else (if p(xs[0]) then [xs[0]] else []) + Filter(xs[1..], p)
  }

  /** Each element survives exactly as often as it occurs if it satisfies `p`, and not at all otherwise. */
  lemma {:induction false} FilterMultiset<T(!new)>(xs: seq<T>, p: T -> bool, x: T)
    ensures multiset(Filter(xs, p))[x] == if p(x) then multiset(xs)[x] else 0
  {
    if xs != [] {
      FilterMultiset(xs[1..], p, x);
      assert xs == [xs[0]] + xs[1..];
      var head := if p(xs[0]) then [xs[0]] else [];
      assert Filter(xs, p) == head + Filter(xs[1..], p);
      assert multiset(Filter(xs, p)) == multiset(head) + multiset(Filter(xs[1..], p));
    }
  }

  /** `a` is `b` with some elements removed, the rest kept in order. */
  predicate IsSubsequence<T(==)>(a: seq<T>, b: seq<T>) decreases |b| {
    if b == [] then a == []
    else (a != [] && a[0] == b[0] && IsSubsequence(a[1..], b[1..])) || IsSubsequence(a, b[1..])
  }

  /** Filtering keeps the surviving elements in their original order. */
  lemma {:induction false} FilterIsSubsequence<T(!new)>(xs: seq<T>, p: T -> bool)
    ensures IsSubsequence(Filter(xs, p), xs)
  {
    if xs != [] {
      FilterIsSubsequence(xs[1..], p);
      var rest := Filter(xs[1..], p);
      if p(xs[0]) {
        var r := [xs[0]] + rest;
        assert Filter(xs, p) == r;
        assert r[0] == xs[0] && r[1..] == rest;
      } else {
        assert Filter(xs, p) == rest;
      }
    }
  }

  lemma {:induction false} FilterAppend<T(!new)>(xs: seq<T>, x: T, p: T -> bool)
    ensures Filter(xs + [x], p) == Filter(xs, p) + (if p(x) then [x] else [])
  {
    if xs == [] {
      assert [] + [x] == [x];
      assert [x][1..] == [];
    } else {
      assert (xs + [x])[1..] == xs[1..] + [x];
      FilterAppend(xs[1..], x, p);
    }
  }

  /** A filter whose predicate holds everywhere keeps everything. */
  lemma {:induction false} FilterAll<T(!new)>(xs: seq<T>, p: T -> bool)
    requires forall i :: 0 <= i < |xs| ==> p(xs[i])
    ensures Filter(xs, p) == xs
  {
    if xs != [] {
      FilterAll(xs[1..], p);
      assert xs == [xs[0]] + xs[1..];
    }
  }

  /** A filter whose predicate holds nowhere keeps nothing. */
  lemma {:induction false} FilterNone<T(!new)>(xs: seq<T>, p: T -> bool)
    requires forall i :: 0 <= i < |xs| ==> !p(xs[i])
    ensures Filter(xs, p) == []
  {
    if xs != [] {
      FilterNone(xs[1..], p);
    }
  }

  /** The predicate selecting the elements whose key is `k`. */
  function HasKey<T>(key: T -> int, k: int): T -> bool {
    x => key(x) == k
  }

  /** Non-increasing by `key`: the order a `(a, b) => key(b) - key(a)` comparator asks for. */
  predicate SortedDesc<T>(xs: seq<T>, key: T -> int) {
    forall i, j :: 0 <= i < j < |xs| ==> key(xs[i]) >= key(xs[j])
  }

  /** Inserts `x` before the first element whose key is not larger than its own. */
  function Insert<T(!new)>(x: T, s: seq<T>, key: T -> int): (r: seq<T>)
    requires SortedDesc(s, key)
    ensures SortedDesc(r, key)
    ensures multiset(r) == multiset(s) + multiset{x}
    decreases |s|
  {
    if s == [] then [x]
    else if key(s[0]) <= key(x) then [x] + s
    else
      var t := Insert(x, s[1..], key);
      InsertBelowHead(x, s, t, key);
      [s[0]] + t
  }

  /** Inserting below the head of `s` keeps the head first and sorted. */
  lemma InsertBelowHead<T>(x: T, s: seq<T>, t: seq<T>, key: T -> int)
    requires s != [] && SortedDesc(s, key) && key(s[0]) > key(x)
    requires SortedDesc(t, key) && multiset(t) == multiset(s[1..]) + multiset{x}
    ensures SortedDesc([s[0]] + t, key)
    ensures multiset([s[0]] + t) == multiset(s) + multiset{x}
  {
    forall i | 0 <= i < |t| ensures key(s[0]) >= key(t[i]) {
      assert t[i] in multiset(t);
      if t[i] != x {
        assert t[i] in multiset(s[1..]);
        var j :| 0 <= j < |s[1..]| && s[1..][j] == t[i];
        assert s[j + 1] == t[i];
      }
    }
    SortedCons(s[0], t, key);
    assert s == [s[0]] + s[1..];
  }

  lemma SortedCons<T>(h: T, t: seq<T>, key: T -> int)
    requires SortedDesc(t, key)
    requires forall i :: 0 <= i < |t| ==> key(h) >= key(t[i])
    ensures SortedDesc([h] + t, key)
  {
    var r := [h] + t;
    forall i, j | 0 <= i < j < |r| ensures key(r[i]) >= key(r[j]) {
      assert r[j] == t[j - 1];
      if i > 0 { assert r[i] == t[i - 1]; }
    }
  }

  /** A stable sort, newest (largest key) first: `xs.sort((a, b) => key(b) - key(a))`
      as ECMAScript 2019 requires it of every engine. */
  function SortDesc<T(!new)>(xs: seq<T>, key: T -> int): (r: seq<T>)
    ensures SortedDesc(r, key)
    ensures multiset(r) == multiset(xs)
  {
    if xs == [] then []
    else
      assert xs == [xs[0]] + xs[1..];
      Insert(xs[0], SortDesc(xs[1..], key), key)
  }

  lemma {:induction false} InsertKeyClass<T(!new)>(x: T, s: seq<T>, key: T -> int, k: int)
    requires SortedDesc(s, key)
    ensures Filter(Insert(x, s, key), HasKey(key, k))
         == (if key(x) == k then [x] else []) + Filter(s, HasKey(key, k))
    decreases |s|
  {
    var p := HasKey(key, k);
    if s == [] {
      FilterSingleton(x, p);
    } else if key(s[0]) <= key(x) {
      FilterCons(x, s, p);
    } else {
      var t := Insert(x, s[1..], key);
      InsertKeyClass(x, s[1..], key, k);
      FilterCons(s[0], t, p);
      if key(x) == k {
        FilterSkip(s[0], [x], Filter(s[1..], p), p);
      } else {
        FilterKeep(s[0], Filter(s[1..], p), p);
      }
    }
  }

  lemma FilterCons<T(!new)>(x: T, s: seq<T>, p: T -> bool)
    ensures Filter([x] + s, p) == (if p(x) then [x] else []) + Filter(s, p)
  {
    assert ([x] + s)[1..] == s;
  }

  lemma FilterSingleton<T(!new)>(x: T, p: T -> bool)
    ensures Filter([x], p) == if p(x) then [x] else []
  {
    assert [x][1..] == [];
  }

  lemma FilterSkip<T>(y: T, head: seq<T>, rest: seq<T>, p: T -> bool)
    requires !p(y)
    ensures (if p(y) then [y] else []) + (head + rest) == head + rest
  {
  }

  lemma FilterKeep<T>(y: T, rest: seq<T>, p: T -> bool)
    ensures (if p(y) then [y] else []) + ([] + rest) == [] + ((if p(y) then [y] else []) + rest)
  {
  }

  /** Stability: among elements with equal keys the sort keeps the input order. */
  lemma {:induction false} SortDescStable<T(!new)>(xs: seq<T>, key: T -> int, k: int)
    ensures Filter(SortDesc(xs, key), HasKey(key, k)) == Filter(xs, HasKey(key, k))
  {
    if xs != [] {
      SortDescStable(xs[1..], key, k);
      InsertKeyClass(xs[0], SortDesc(xs[1..], key), key, k);
    }
  }

  /** Strictly decreasing: sorted newest first with no repetition. */
  predicate StrictlyDesc(xs: seq<int>) {
    forall i, j :: 0 <= i < j < |xs| ==> xs[i] > xs[j]
  }

  function InsertDistinct(x: int, s: seq<int>): (r: seq<int>)
    requires StrictlyDesc(s)
    ensures StrictlyDesc(r)
    ensures forall y :: y in r <==> y == x || y in s
    decreases |s|
  {
    if s == [] then [x]
    else if x == s[0] then s
    else if x > s[0] then [x] + s
    else
      var t := InsertDistinct(x, s[1..]);
      assert forall i :: 0 <= i < |t| ==> s[0] > t[i] by {
        forall i | 0 <= i < |t| ensures s[0] > t[i] {
          assert t[i] in t;
        }
      }
      [s[0]] + t
  }

  /** `[...new Set(xs)].sort((a, b) => b - a)`: each value of `xs` once, largest first. */
  function DistinctDesc(xs: seq<int>): (r: seq<int>)
    ensures StrictlyDesc(r)
    ensures forall y :: y in r <==> y in xs
  {
    if xs == [] then [] else InsertDistinct(xs[0], DistinctDesc(xs[1..]))
  }

  /** `years.filter(Boolean)` for numbers that may be missing: drops `None`
      (`null`, `undefined`, NaN) and 0. */
  function TruthyYears(years: seq<Option<int>>): (r: seq<int>)
    ensures forall y :: y in r <==> y != 0 && Some(y) in years
  {
    if years == [] then []
    else
      var rest := TruthyYears(years[1..]);
      assert years == [years[0]] + years[1..];
      if years[0].Some? && years[0].value != 0 then [years[0].value] + rest else rest
  }

  /** `[...new Set(years.filter(Boolean))].sort((a, b) => b - a)`: every
      present non-zero year once, newest first. */
  function YearList(years: seq<Option<int>>): (r: seq<int>)
    ensures StrictlyDesc(r)
    ensures forall y :: y in r <==> y != 0 && Some(y) in years
  {
    DistinctDesc(TruthyYears(years))
  }
}
