/**
 * The shape of every list query the routes run: filter, order, skip,
 * take. Ordering is a stable insertion sort under a total preorder, so
 * rows that tie keep the order the database produced them in.
 */
module Listing {

  /** The rows of table `m` in the order `order` names them. */
  function Rows<K, V>(m: map<K, V>, order: seq<K>): (r: seq<V>)
    requires forall i :: 0 <= i < |order| ==> order[i] in m
    ensures |r| == |order|
    ensures forall i :: 0 <= i < |r| ==> r[i] == m[order[i]]
  {
    seq(|order|, i requires 0 <= i < |order| => m[order[i]])
  }

  /** `le` is total and transitive: a database `orderBy`. */
  ghost predicate TotalPreorder<T(!new)>(le: (T, T) -> bool) {
    && (forall a, b :: le(a, b) || le(b, a))
    && (forall a, b, c :: le(a, b) && le(b, c) ==> le(a, c))
  }

  predicate Sorted<T>(xs: seq<T>, le: (T, T) -> bool) {
    forall i, j :: 0 <= i < j < |xs| ==> le(xs[i], xs[j])
  }

  /** `x` placed before the first element it may precede. */
  function Insert<T>(x: T, xs: seq<T>, le: (T, T) -> bool): (r: seq<T>)
    ensures multiset(r) == multiset(xs) + multiset{x}
    ensures |r| == |xs| + 1
  {
    if xs == [] then [x]
    else if le(x, xs[0]) then [x] + xs
    else
      assert xs == [xs[0]] + xs[1..];
      [xs[0]] + Insert(x, xs[1..], le)
  }

  lemma {:induction false} InsertSorted<T(!new)>(x: T, xs: seq<T>, le: (T, T) -> bool)
    requires TotalPreorder(le) && Sorted(xs, le)
    ensures Sorted(Insert(x, xs, le), le)
  {
    if xs != [] && !le(x, xs[0]) {
      InsertSorted(x, xs[1..], le);
      var r := Insert(x, xs, le);
      var tail := Insert(x, xs[1..], le);
      assert r == [xs[0]] + tail;
      forall j | 0 < j < |r| ensures le(r[0], r[j]) {
        assert r[j] in multiset(tail);
        assert r[j] in multiset(xs[1..]) + multiset{x};
        if r[j] == x {
        } else {
          assert r[j] in xs[1..];
        }
      }
    }
  }

  /** The rows in `le` order. */
  function SortBy<T>(xs: seq<T>, le: (T, T) -> bool): (r: seq<T>)
    ensures multiset(r) == multiset(xs) && |r| == |xs|
  {
    if xs == [] then []
    else
      assert xs == [xs[0]] + xs[1..];
      Insert(xs[0], SortBy(xs[1..], le), le)
  }

  /** The sort orders its input. */
  lemma {:induction false} SortBySorted<T(!new)>(xs: seq<T>, le: (T, T) -> bool)
    requires TotalPreorder(le)
    ensures Sorted(SortBy(xs, le), le)
  {
    if xs != [] {
      SortBySorted(xs[1..], le);
      InsertSorted(xs[0], SortBy(xs[1..], le), le);
    }
  }

  /** The rows that satisfy `p`, in order. */
  function Filter<T>(xs: seq<T>, p: T -> bool): (r: seq<T>)
    ensures |r| <= |xs|
    ensures forall i :: 0 <= i < |r| ==> p(r[i]) && r[i] in xs
    ensures forall x :: x in xs && p(x) ==> x in r
  {
    if xs == [] then []
    else
      var rest := Filter(xs[1..], p);
      assert forall x :: x in xs[1..] ==> x in xs;
      if p(xs[0]) then [xs[0]] + rest else rest
  }

  /** Filtering keeps the order of the rows: it distributes over
      concatenation. */
  lemma {:induction false} FilterAppend<T>(xs: seq<T>, ys: seq<T>, p: T -> bool)
    ensures Filter(xs + ys, p) == Filter(xs, p) + Filter(ys, p)
  {
    if xs != [] {
      assert (xs + ys)[0] == xs[0];
      assert (xs + ys)[1..] == xs[1..] + ys;
      FilterAppend(xs[1..], ys, p);
    } else {
      assert xs + ys == ys;
    }
  }

  /** `findMany({ skip, take })` with `skip >= 0`: a non-negative `take`
      keeps the first `take` rows after the skipped ones; a negative `take`
      counts from the other end, as the database's reverse paging does. */
  function Page<T>(xs: seq<T>, skip: nat, take: int): (r: seq<T>)
    ensures take >= 0 ==> |r| == Min(take, Max(|xs| - skip, 0))
    ensures take >= 0 ==> forall i :: 0 <= i < |r| ==> r[i] == xs[skip + i]
    ensures take < 0 ==> |r| <= -take
    ensures exists lo, hi :: 0 <= lo <= hi <= |xs| && r == xs[lo..hi]
    ensures forall x :: x in r ==> x in xs
    ensures skip == 0 && take >= |xs| ==> r == xs
  {
    if take >= 0 then
      var lo := Min(skip, |xs|);
      var hi := Min(skip + take, |xs|);
      xs[lo..hi]
    else
      var hi := Max(|xs| - skip, 0);
      var lo := Max(hi + take, 0);
      xs[lo..hi]
  }

  function Min(a: int, b: int): int { if a <= b then a else b }
  function Max(a: int, b: int): int { if a >= b then a else b }

  /** Paging with a non-negative size splits a list into consecutive
      pages: page `p` and page `p + 1` are adjacent slices. */
  lemma PagesAdjacent<T>(xs: seq<T>, page: nat, size: nat)
    ensures Page(xs, page * size, size) + Page(xs, (page + 1) * size, size)
         == Page(xs, page * size, 2 * size)
  {
    var a := Min(page * size, |xs|);
    var b := Min(page * size + size, |xs|);
    var c := Min(page * size + 2 * size, |xs|);
    assert (page + 1) * size == page * size + size;
    assert xs[a..b] + xs[b..c] == xs[a..c];
  }

  /** No row appears twice. */
  predicate Distinct<T(==)>(xs: seq<T>) {
    forall i, j :: 0 <= i < j < |xs| ==> xs[i] != xs[j]
  }

  lemma {:induction false} DistinctCount<T>(xs: seq<T>, x: T)
    requires Distinct(xs)
    ensures multiset(xs)[x] <= 1
  {
    if xs != [] {
      assert xs == [xs[0]] + xs[1..];
      DistinctCount(xs[1..], x);
      if xs[0] == x {
        assert x !in xs[1..];
      }
    }
  }

  lemma CountDistinct<T>(xs: seq<T>)
    requires forall x :: multiset(xs)[x] <= 1
    ensures Distinct(xs)
  {
    forall i, j | 0 <= i < j < |xs| ensures xs[i] != xs[j] {
      var x := xs[i];
      assert xs == xs[..j] + xs[j..];
      assert x in xs[..j];
      assert xs[j] in xs[j..];
      assert multiset(xs)[x] == multiset(xs[..j])[x] + multiset(xs[j..])[x];
      assert multiset(xs)[x] >= 1 + (if xs[j] == x then 1 else 0);
    }
  }

  /** Sorting a list without repeats yields one without repeats. */
  lemma SortByDistinct<T>(xs: seq<T>, le: (T, T) -> bool)
    requires Distinct(xs)
    ensures Distinct(SortBy(xs, le))
  {
    forall x ensures multiset(SortBy(xs, le))[x] <= 1 {
      DistinctCount(xs, x);
    }
    CountDistinct(SortBy(xs, le));
  }

  /** Filtering a list without repeats yields one without repeats. */
  lemma {:induction false} FilterDistinct<T>(xs: seq<T>, p: T -> bool)
    requires Distinct(xs)
    ensures Distinct(Filter(xs, p))
  {
    if xs != [] {
      FilterDistinct(xs[1..], p);
      assert xs[0] !in xs[1..];
      assert xs[0] !in Filter(xs[1..], p);
    }
  }

  /** A page of a sorted list is sorted. */
  lemma PageSorted<T>(xs: seq<T>, skip: nat, take: int, le: (T, T) -> bool)
    requires Sorted(xs, le)
    ensures Sorted(Page(xs, skip, take), le)
  {
    var lo, hi :| 0 <= lo <= hi <= |xs| && Page(xs, skip, take) == xs[lo..hi];
    forall i, j | 0 <= i < j < hi - lo ensures le(xs[lo..hi][i], xs[lo..hi][j]) {
      assert xs[lo..hi][i] == xs[lo + i] && xs[lo..hi][j] == xs[lo + j];
    }
  }

  /** The query every list route runs: the table's rows that pass the
      filter, in `le` order, paged. */
  function Select<K, V>(m: map<K, V>, order: seq<K>, p: V -> bool, le: (V, V) -> bool,
                        skip: nat, take: int): seq<V>
    requires forall i :: 0 <= i < |order| ==> order[i] in m
  {
    Page(SortBy(Filter(Rows(m, order), p), le), skip, take)
  }

  /** What a query returns: stored rows that pass the filter, in order, no
      more than `take` of them; and, when the page starts at the top and is
      as large as the table, every row of `order` that passes the filter. */
  lemma SelectOutcome<K, V(!new)>(m: map<K, V>, order: seq<K>, p: V -> bool, le: (V, V) -> bool,
                                  skip: nat, take: int)
    requires forall i :: 0 <= i < |order| ==> order[i] in m
    requires TotalPreorder(le)
    ensures var r := Select(m, order, p, le, skip, take);
      && (forall x :: x in r ==> x in m.Values && p(x))
      && Sorted(r, le)
      && (take >= 0 ==> |r| <= take)
      && (skip == 0 && take >= |order| ==>
            forall i :: 0 <= i < |order| && p(m[order[i]]) ==> m[order[i]] in r)
  {
    var all := Rows(m, order);
    var chosen := Filter(all, p);
    var sorted := SortBy(chosen, le);
    SortBySorted(chosen, le);
    PageSorted(sorted, skip, take, le);
    forall x | x in Select(m, order, p, le, skip, take) ensures x in m.Values && p(x) {
      assert x in multiset(chosen);
      var j :| 0 <= j < |all| && all[j] == x;
    }
    if skip == 0 && take >= |order| {
      forall i | 0 <= i < |order| && p(m[order[i]]) ensures m[order[i]] in Select(m, order, p, le, skip, take) {
        assert all[i] == m[order[i]];
        assert m[order[i]] in multiset(sorted);
      }
    }
  }

  /** `r` is the window of `xs` that starts at `skip`: the rows at
      positions `skip`, `skip + 1`, ..., as many as there are up to
      `take`. */
  ghost predicate IsWindow<T>(r: seq<T>, xs: seq<T>, skip: nat, take: nat) {
    && |r| == Min(take, Max(|xs| - skip, 0))
    && forall i :: 0 <= i < |r| ==> skip + i < |xs| && r[i] == xs[skip + i]
  }

  /** With a non-negative `take`, a query returns the window of the
      ordered matching rows that starts at `skip`. */
  lemma SelectWindow<K, V>(m: map<K, V>, order: seq<K>, p: V -> bool, le: (V, V) -> bool,
                           skip: nat, take: nat)
    requires forall i :: 0 <= i < |order| ==> order[i] in m
    ensures IsWindow(Select(m, order, p, le, skip, take), SortBy(Filter(Rows(m, order), p), le), skip, take)
  {
    var ranked := SortBy(Filter(Rows(m, order), p), le);
    assert Select(m, order, p, le, skip, take) == Page(ranked, skip, take);
    PageWindow(ranked, skip, take);
  }

  lemma PageWindow<T>(xs: seq<T>, skip: nat, take: nat)
    ensures IsWindow(Page(xs, skip, take), xs, skip, take)
  {
  }

  /** Rows with distinct keys give a query result without repeats. */
  lemma SelectDistinct<K, V>(m: map<K, V>, order: seq<K>, p: V -> bool, le: (V, V) -> bool,
                             skip: nat, take: int)
    requires forall i :: 0 <= i < |order| ==> order[i] in m
    requires Distinct(Rows(m, order))
    ensures Distinct(Select(m, order, p, le, skip, take))
  {
    var chosen := Filter(Rows(m, order), p);
    FilterDistinct(Rows(m, order), p);
    SortByDistinct(chosen, le);
    var sorted := SortBy(chosen, le);
    var lo, hi :| 0 <= lo <= hi <= |sorted| && Page(sorted, skip, take) == sorted[lo..hi];
    forall i, j | 0 <= i < j < hi - lo ensures sorted[lo..hi][i] != sorted[lo..hi][j] {
      assert sorted[lo..hi][i] == sorted[lo + i] && sorted[lo..hi][j] == sorted[lo + j];
    }
  }

  /** A page from the top as large as the table is the whole query. */
  lemma SelectAll<K, V>(m: map<K, V>, order: seq<K>, p: V -> bool, le: (V, V) -> bool)
    requires forall i :: 0 <= i < |order| ==> order[i] in m
    ensures Select(m, order, p, le, 0, |order|) == SortBy(Filter(Rows(m, order), p), le)
  {
  }

  /** Filters that agree on every row select the same rows. */
  lemma {:induction false} FilterSame<T(!new)>(xs: seq<T>, p: T -> bool, q: T -> bool)
    requires forall x :: p(x) == q(x)
    ensures Filter(xs, p) == Filter(xs, q)
  {
    if xs != [] {
      FilterSame(xs[1..], p, q);
    }
  }

  /** The number of rows of `m` that pass `p`: the database's `count`. */
  function Count<K, V>(m: map<K, V>, p: V -> bool): nat {
    |set k | k in m && p(m[k])|
  }

  /** A set holding exactly the matching keys has `Count` members. */
  lemma CountIs<K, V>(m: map<K, V>, p: V -> bool, keys: set<K>)
    requires forall k :: k in keys <==> k in m && p(m[k])
    ensures Count(m, p) == |keys|
  {
    assert keys == set k | k in m && p(m[k]);
  }

  lemma {:induction false} FilterRowsCard<K, V>(m: map<K, V>, order: seq<K>, p: V -> bool)
    requires forall i :: 0 <= i < |order| ==> order[i] in m
    requires Distinct(order)
    ensures |Filter(Rows(m, order), p)| == |set k | k in m && k in order && p(m[k])|
  {
    if order != [] {
      var rest := order[1..];
      assert Distinct(rest) by {
        forall i, j | 0 <= i < j < |rest| ensures rest[i] != rest[j] {
          assert rest[i] == order[i + 1] && rest[j] == order[j + 1];
        }
      }
      FilterRowsCard(m, rest, p);
      FilterRowsStep(m, order, p);
      MatchingKeysStep(m, order, p);
    }
  }

  /** Filtering the rows of a non-empty order: the first row, if it
      passes, and then the rest. */
  lemma FilterRowsStep<K, V>(m: map<K, V>, order: seq<K>, p: V -> bool)
    requires forall i :: 0 <= i < |order| ==> order[i] in m
    requires order != []
    ensures |Filter(Rows(m, order), p)| == |Filter(Rows(m, order[1..]), p)| + (if p(m[order[0]]) then 1 else 0)
  {
    var xs := Rows(m, order);
    assert xs[0] == m[order[0]];
    assert xs[1..] == Rows(m, order[1..]);
  }

  /** The matching keys of a non-empty order without repetitions: the
      first key, if it matches, and those of the rest. */
  lemma MatchingKeysStep<K, V>(m: map<K, V>, order: seq<K>, p: V -> bool)
    requires order != [] && Distinct(order)
    ensures |set k | k in m && k in order && p(m[k])|
         == |set k | k in m && k in order[1..] && p(m[k])| + (if order[0] in m && p(m[order[0]]) then 1 else 0)
  {
    var k0 := order[0];
    var rest := order[1..];
    DistinctHead(order);
    var s := set k | k in m && k in order && p(m[k]);
    var s' := set k | k in m && k in rest && p(m[k]);
    assert k0 !in s';
    if k0 in m && p(m[k0]) {
      assert s == s' + {k0};
      assert |s' + {k0}| == |s'| + 1;
    } else {
      assert s == s';
    }
  }

  /** The first element of an order without repetitions does not occur
      again; the order holds it and the rest. */
  lemma DistinctHead<T>(xs: seq<T>)
    requires xs != [] && Distinct(xs)
    ensures xs[0] !in xs[1..]
    ensures forall x :: x in xs <==> x == xs[0] || x in xs[1..]
  {
    forall j | 0 <= j < |xs| - 1 ensures xs[1..][j] != xs[0] {
      assert xs[1..][j] == xs[j + 1];
    }
    assert xs == [xs[0]] + xs[1..];
  }

  /** Over an order that lists every key once, the filtered rows are as
      many as the matching rows the table holds: `findMany` and `count`
      with the same filter agree. */
  lemma FilterRowsCount<K, V>(m: map<K, V>, order: seq<K>, p: V -> bool)
    requires forall i :: 0 <= i < |order| ==> order[i] in m
    requires Distinct(order)
    requires forall k :: k in m ==> k in order
    ensures |Filter(Rows(m, order), p)| == Count(m, p)
  {
    FilterRowsCard(m, order, p);
    assert (set k | k in m && k in order && p(m[k])) == (set k | k in m && p(m[k]));
  }
}
