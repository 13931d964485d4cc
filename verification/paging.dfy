/**
  Ordering and offset pagination, as the list endpoints ask the database for
  them: `ORDER BY key DESC`, then `OFFSET (page - 1) * limit`, then `LIMIT limit`.
  The database leaves the order of rows with equal keys unspecified; the model
  sorts stably, which is one of the orders the database may return.
*/
module Paging {

  /** The rows of `s` that satisfy `p`, in their original order (a `WHERE` clause). */
  function Filter<T(!new)>(s: seq<T>, p: T -> bool): (r: seq<T>)
    ensures |r| <= |s|
    ensures forall x :: x in r <==> x in s && p(x)
    ensures forall i :: 0 <= i < |r| ==> p(r[i])
  {
    if s == [] then []
    else if p(s[0]) then [s[0]] + Filter(s[1..], p)
    else Filter(s[1..], p)
  }

  lemma {:induction false} FilterAppend<T(!new)>(s: seq<T>, x: T, p: T -> bool)
    ensures Filter(s + [x], p) == Filter(s, p) + (if p(x) then [x] else [])
  {
    if s != [] {
      assert (s + [x])[1..] == s[1..] + [x];
      FilterAppend(s[1..], x, p);
    }
  }

  lemma {:induction false} FilterAllPass<T(!new)>(s: seq<T>, p: T -> bool)
    requires forall i :: 0 <= i < |s| ==> p(s[i])
    ensures Filter(s, p) == s
  {
    if s != [] {
      FilterAllPass(s[1..], p);
    }
  }

  /** When exactly the element at position `i` fails the test, filtering removes just that position. */
  lemma {:induction false} FilterDropsOne<T(!new)>(s: seq<T>, p: T -> bool, i: nat)
    requires i < |s| && !p(s[i])
    requires forall k :: 0 <= k < |s| && k != i ==> p(s[k])
    ensures Filter(s, p) == s[..i] + s[i + 1..]
  {
    var t := s[1..];
    if i == 0 {
      FilterAllPass(t, p);
    } else {
      FilterDropsOne(t, p, i - 1);
      assert t[..i - 1] == s[1..i];
      assert t[i..] == s[i + 1..];
      assert s[..i] == [s[0]] + s[1..i];
    }
  }

  /** Every two distinct positions of `s` hold elements related by `ok`. */
  ghost predicate Pairwise<T>(s: seq<T>, ok: (T, T) -> bool) {
    forall i, j :: 0 <= i < |s| && 0 <= j < |s| && i != j ==> ok(s[i], s[j])
  }

  /** Filtering keeps a pairwise relation: it only drops elements. */
  lemma {:induction false} FilterPreservesPairwise<T(!new)>(s: seq<T>, p: T -> bool, ok: (T, T) -> bool)
    requires Pairwise(s, ok)
    ensures Pairwise(Filter(s, p), ok)
  {
    if s != [] {
      var t := s[1..];
      assert Pairwise(t, ok) by {
        forall i, j | 0 <= i < |t| && 0 <= j < |t| && i != j ensures ok(t[i], t[j]) {
          assert t[i] == s[i + 1] && t[j] == s[j + 1];
        }
      }
      FilterPreservesPairwise(t, p, ok);
      var f := Filter(t, p);
      if p(s[0]) {
        var r := [s[0]] + f;
        forall i, j | 0 <= i < |r| && 0 <= j < |r| && i != j ensures ok(r[i], r[j]) {
          if i == 0 {
            assert r[j] == f[j - 1] && f[j - 1] in t;
            var k :| 0 <= k < |t| && t[k] == f[j - 1];
            assert ok(s[0], s[k + 1]);
          } else if j == 0 {
            assert r[i] == f[i - 1] && f[i - 1] in t;
            var k :| 0 <= k < |t| && t[k] == f[i - 1];
            assert ok(s[k + 1], s[0]);
          } else {
            assert r[i] == f[i - 1] && r[j] == f[j - 1];
          }
        }
      }
    }
  }

  /** The keys of a table in some fixed order, each exactly once; the order depends only on the key set. */
  ghost function KeyOrder<K(!new)>(ks: set<K>): (r: seq<K>)
    ensures |r| == |ks|
    ensures forall k :: k in r <==> k in ks
    ensures forall i, j :: 0 <= i < j < |r| ==> r[i] != r[j]
    decreases |ks|
  {
    if ks == {} then []
    else
      var k :| k in ks;
      var rest := KeyOrder(ks - {k});
      assert k !in rest;
      [k] + rest
  }

  /** The rows of a keyed table, one per key, listed in the order of `KeyOrder`. */
  ghost function Rows<K(!new), V(!new)>(m: map<K, V>): (s: seq<V>)
    ensures |s| == |m|
    ensures forall i :: 0 <= i < |s| ==> KeyOrder(m.Keys)[i] in m && s[i] == m[KeyOrder(m.Keys)[i]]
  {
    var ks := KeyOrder(m.Keys);
    assert |m.Keys| == |m|;
    seq(|ks|, i requires 0 <= i < |ks| => m[ks[i]])
  }

  /** Every row of the table is listed, and only rows of the table are. */
  lemma RowsCoverTable<K(!new), V(!new)>(m: map<K, V>)
    ensures forall k :: k in m ==> m[k] in Rows(m)
    ensures forall v :: v in Rows(m) ==> v in m.Values
  {
    var ks, s := KeyOrder(m.Keys), Rows(m);
    forall k | k in m ensures m[k] in s {
      var i :| 0 <= i < |ks| && ks[i] == k;
      assert s[i] == m[k];
    }
  }

  /** Every row on a page of a keyed table's sorted rows is a row of that table. */
  lemma PageRowsComeFromTable<K(!new), V(!new)>(m: map<K, V>, key: V -> int, page: int, limit: int)
    requires 1 <= page && 1 <= limit
    ensures forall x :: x in Paginate(SortDesc(Rows(m), key), page, limit) ==> x in m.Values
  {
    RowsCoverTable(m);
    PageOfSortComesFrom(Rows(m), key, page, limit);
  }

  /** Every row on a page of a sorted sequence is a row of the unsorted one. */
  lemma PageOfSortComesFrom<T>(s: seq<T>, key: T -> int, page: int, limit: int)
    requires 1 <= page && 1 <= limit
    ensures forall x :: x in Paginate(SortDesc(s, key), page, limit) ==> x in s
  {
    var sorted := SortDesc(s, key);
    var data := Paginate(sorted, page, limit);
    forall x | x in data ensures x in s {
      var k :| 0 <= k < |data| && data[k] == x;
      assert sorted[Offset(page, limit) + k] in multiset(sorted);
    }
  }

  /** What a list endpoint answers: one page of rows, the total row count, and the paging used. */
  datatype PageOf<T> = PageOf(data: seq<T>, total: int, page: int, limit: int)

  /** Values the list endpoints use when `page` / `limit` are not supplied. */
  const DefaultPage: int := 1
  const DefaultLimit: int := 10

  /** `s` is in non-increasing order of `key`. */
  predicate SortedDesc<T>(s: seq<T>, key: T -> int) {
    forall i, j :: 0 <= i < j < |s| ==> key(s[i]) >= key(s[j])
  }

  /** Inserts `x` into a descending sequence in front of the first element it is not below. */
  function InsertDesc<T>(x: T, s: seq<T>, key: T -> int): (r: seq<T>)
    requires SortedDesc(s, key)
    ensures SortedDesc(r, key)
    ensures multiset(r) == multiset(s) + multiset{x}
    ensures |r| == |s| + 1
    ensures r[0] == x || (s != [] && r[0] == s[0])
  {
    if s == [] then [x]
    else if key(x) >= key(s[0]) then [x] + s
    else
      var rest := InsertDesc(x, s[1..], key);
      assert s == [s[0]] + s[1..];
      ConsSorted(s[0], rest, key);
      [s[0]] + rest
  }

  /** A head not below the first element keeps a descending sequence descending. */
  lemma ConsSorted<T>(h: T, t: seq<T>, key: T -> int)
    requires SortedDesc(t, key) && (t == [] || key(h) >= key(t[0]))
    ensures SortedDesc([h] + t, key)
  {
    var r := [h] + t;
    forall i, j | 0 <= i < j < |r| ensures key(r[i]) >= key(r[j]) {
      if i == 0 && j > 1 {
        assert key(t[0]) >= key(t[j - 1]);
      }
    }
  }

  /** The rows of `s` in descending `key` order: a permutation of `s`. */
  function SortDesc<T>(s: seq<T>, key: T -> int): (r: seq<T>)
    ensures SortedDesc(r, key)
    ensures multiset(r) == multiset(s)
    ensures |r| == |s|
  {
    if s == [] then []
    else
      assert s == [s[0]] + s[1..];
      InsertDesc(s[0], SortDesc(s[1..], key), key)
  }

  /**
    Number of rows skipped before page `page`: one full page for each earlier
    page, which `OffsetStep` shows is `(page - 1) * limit`. It is written as a
    sum so that the solver never has to reason about the product.
  */
  function Offset(page: int, limit: int): (r: int)
    requires 1 <= page && 1 <= limit
    ensures r >= 0
    decreases page
  {
    if page == 1 then 0 else Offset(page - 1, limit) + limit
  }

  /** The rows of page `page`: at most `limit` consecutive rows starting at the offset. */
  function Paginate<T>(s: seq<T>, page: int, limit: int): (r: seq<T>)
    requires 1 <= page && 1 <= limit
    ensures |r| <= limit
    ensures |r| == if Offset(page, limit) >= |s| then 0
                   else if Offset(page, limit) + limit <= |s| then limit
                   else |s| - Offset(page, limit)
    ensures Offset(page, limit) >= |s| ==> r == []
    ensures Offset(page, limit) + limit <= |s| ==> |r| == limit
    ensures forall i :: 0 <= i < |r| ==> Offset(page, limit) + i < |s| && r[i] == s[Offset(page, limit) + i]
  {
    var skip := Offset(page, limit);
    if skip >= |s| then []
    else if skip + limit <= |s| then s[skip..skip + limit]
    else s[skip..]
  }

  /** A page of a sorted sequence is itself sorted. */
  lemma PageOfSortedIsSorted<T>(s: seq<T>, page: int, limit: int, key: T -> int)
    requires 1 <= page && 1 <= limit
    requires SortedDesc(s, key)
    ensures SortedDesc(Paginate(s, page, limit), key)
  {
    var r := Paginate(s, page, limit);
    var skip := Offset(page, limit);
    if skip < |s| {
      var hi := skip + |r|;
      assert r == s[skip..hi];
      SliceSorted(s, skip, hi, key);
    }
  }

  /** A contiguous slice of a sorted sequence is sorted. */
  lemma SliceSorted<T>(s: seq<T>, lo: int, hi: int, key: T -> int)
    requires 0 <= lo <= hi <= |s|
    requires SortedDesc(s, key)
    ensures SortedDesc(s[lo..hi], key)
  {
    var t := s[lo..hi];
    forall i, j | 0 <= i < j < |t| ensures key(t[i]) >= key(t[j]) {
      assert t[i] == s[lo + i] && t[j] == s[lo + j];
    }
  }

  /** Pages 1..n laid end to end. */
  function FirstPages<T>(s: seq<T>, n: nat, limit: int): seq<T>
    requires 1 <= limit
  {
    if n == 0 then [] else FirstPages(s, n - 1, limit) + Paginate(s, n, limit)
  }

  /** What a client reads by requesting pages 1..n of an endpoint, one after the other. */
  function ReadPages<T>(pages: int -> seq<T>, n: nat): seq<T> {
    if n == 0 then [] else ReadPages(pages, n - 1) + pages(n)
  }

  /** An endpoint whose page k is the k-th page of `s` is read as the first pages of `s`. */
  lemma {:induction false} ReadPagesAreFirstPages<T>(pages: int -> seq<T>, s: seq<T>, n: nat, limit: int)
    requires 1 <= limit
    requires forall k :: 1 <= k <= n ==> pages(k) == Paginate(s, k, limit)
    ensures ReadPages(pages, n) == FirstPages(s, n, limit)
  {
    if n > 0 {
      ReadPagesAreFirstPages(pages, s, n - 1, limit);
    }
  }

  /** Reading pages 1, 2, ..., n in turn yields the first n * limit rows, without gaps or repeats. */
  lemma {:induction false} PagesCoverPrefix<T>(s: seq<T>, n: nat, limit: int)
    requires 1 <= limit
    ensures n * limit <= |s| ==> FirstPages(s, n, limit) == s[..n * limit]
    ensures n * limit > |s| ==> FirstPages(s, n, limit) == s
  {
    if n > 0 {
      PagesCoverPrefix(s, n - 1, limit);
      var skip := Offset(n, limit);
      OffsetStep(n, limit);
      var prev := FirstPages(s, n - 1, limit);
      if skip >= |s| {
        if skip == |s| {
          assert prev == s[..skip];
        }
      } else if skip + limit <= |s| {
        assert s[..skip] + s[skip..skip + limit] == s[..skip + limit];
      } else {
        assert s[..skip] + s[skip..] == s;
      }
    }
  }

  /** Page n starts where the first n - 1 full pages end, and ends a full page later. */
  lemma {:induction false} OffsetStep(n: nat, limit: int)
    requires 1 <= n && 1 <= limit
    ensures Offset(n, limit) == (n - 1) * limit
    ensures n * limit == Offset(n, limit) + limit
  {
    if n > 1 {
      OffsetStep(n - 1, limit);
    }
  }

  /**
    Reading pages 1..n of an endpoint whose page k is the k-th page of `s`
    yields n full pages while rows remain, and all of `s`, none repeated, once
    the pages cover it.
  */
  lemma ReadAllPages<T>(pages: int -> seq<T>, s: seq<T>, n: nat, limit: int)
    requires 1 <= limit
    requires forall k :: 1 <= k <= n ==> pages(k) == Paginate(s, k, limit)
    ensures n * limit <= |s| ==> ReadPages(pages, n) == s[..n * limit] && |ReadPages(pages, n)| == n * limit
    ensures n * limit >= |s| ==> ReadPages(pages, n) == s
  {
    ReadPagesAreFirstPages(pages, s, n, limit);
    PagesCoverPrefix(s, n, limit);
    if n * limit == |s| {
      assert s[..n * limit] == s;
    }
  }


  /** `f` applied to every element, in order. */
  function Map<A, B>(s: seq<A>, f: A -> B): (r: seq<B>)
    ensures |r| == |s|
    ensures forall i :: 0 <= i < |r| ==> r[i] == f(s[i])
  {
    seq(|s|, i requires 0 <= i < |s| => f(s[i]))
  }

  /** Mapping each row and then cutting a page is cutting the page and then mapping its rows. */
  lemma MapPaginate<A, B>(s: seq<A>, f: A -> B, page: int, limit: int)
    requires 1 <= page && 1 <= limit
    ensures Map(Paginate(s, page, limit), f) == Paginate(Map(s, f), page, limit)
  {
  }

  /** Two tables with the same keys whose rows look alike under `f` list alike under `f`. */
  lemma MapRowsAgree<K(!new), V(!new), W>(m1: map<K, V>, m2: map<K, V>, f: V -> W)
    requires m1.Keys == m2.Keys
    requires forall k :: k in m1 ==> f(m1[k]) == f(m2[k])
    ensures Map(Rows(m1), f) == Map(Rows(m2), f)
  {
    RowsAgree(m1, m2, f);
  }

  /** Position by position, the rows of two tables with the same keys come from the same key. */
  lemma RowsAgree<K(!new), V(!new), W>(m1: map<K, V>, m2: map<K, V>, f: V -> W)
    requires m1.Keys == m2.Keys
    requires forall k :: k in m1 ==> f(m1[k]) == f(m2[k])
    ensures |Rows(m1)| == |Rows(m2)|
    ensures forall i :: 0 <= i < |Rows(m1)| ==> f(Rows(m1)[i]) == f(Rows(m2)[i])
  {
    assert |m1| == |m1.Keys| && |m2| == |m2.Keys|;
  }

  /**
    Sequences that look alike under `f` give pages that look alike under `f`,
    when `f` keeps the sort key.
  */
  lemma MapPagesAgree<A, B>(s1: seq<A>, s2: seq<A>, key: A -> int, f: A -> B, key2: B -> int, page: int, limit: int)
    requires 1 <= page && 1 <= limit
    requires forall a :: key(a) == key2(f(a))
    requires Map(s1, f) == Map(s2, f)
    ensures Map(Paginate(SortDesc(s1, key), page, limit), f) == Map(Paginate(SortDesc(s2, key), page, limit), f)
  {
    MapSortDesc(s1, key, f, key2);
    MapSortDesc(s2, key, f, key2);
    MapPaginate(SortDesc(s1, key), f, page, limit);
    MapPaginate(SortDesc(s2, key), f, page, limit);
  }

  /** The image of a member is a member of the image. */
  lemma MapHas<A, B>(s: seq<A>, f: A -> B, x: A)
    requires x in s
    ensures f(x) in Map(s, f)
  {
    var i :| 0 <= i < |s| && s[i] == x;
    assert Map(s, f)[i] == f(x);
  }

  lemma MapCons<A, B>(a: A, s: seq<A>, f: A -> B)
    ensures Map([a] + s, f) == [f(a)] + Map(s, f)
  {
  }

  /** A map that keeps the sort key keeps a descending sequence descending. */
  lemma MapKeepsSorted<A, B>(s: seq<A>, key: A -> int, f: A -> B, key2: B -> int)
    requires SortedDesc(s, key)
    requires forall a :: key(a) == key2(f(a))
    ensures SortedDesc(Map(s, f), key2)
  {
    var ms := Map(s, f);
    forall i, j | 0 <= i < j < |ms| ensures key2(ms[i]) >= key2(ms[j]) {
      assert key(s[i]) >= key(s[j]);
    }
  }

  /** Inserting commutes with a map that keeps the sort key. */
  lemma {:induction false} MapInsertDesc<A, B>(x: A, s: seq<A>, key: A -> int, f: A -> B, key2: B -> int)
    requires SortedDesc(s, key)
    requires forall a :: key(a) == key2(f(a))
    ensures SortedDesc(Map(s, f), key2) && Map(InsertDesc(x, s, key), f) == InsertDesc(f(x), Map(s, f), key2)
  {
    MapKeepsSorted(s, key, f, key2);
    if s != [] {
      var ms := Map(s, f);
      assert key(s[0]) == key2(ms[0]) && key(x) == key2(f(x));
      if key(x) < key(s[0]) {
        var tail := s[1..];
        assert s == [s[0]] + tail;
        assert SortedDesc(tail, key);
        MapInsertDesc(x, tail, key, f, key2);
        MapCons(s[0], InsertDesc(x, tail, key), f);
        MapCons(s[0], tail, f);
      } else {
        MapCons(x, s, f);
      }
    }
  }

  /** Sorting commutes with a map that keeps the sort key: mapping cannot reorder rows. */
  lemma {:induction false} MapSortDesc<A, B>(s: seq<A>, key: A -> int, f: A -> B, key2: B -> int)
    requires forall a :: key(a) == key2(f(a))
    ensures Map(SortDesc(s, key), f) == SortDesc(Map(s, f), key2)
  {
    if s != [] {
      MapSortDesc(s[1..], key, f, key2);
      var ms := Map(s, f);
      assert ms[1..] == Map(s[1..], f);
      MapInsertDesc(s[0], SortDesc(s[1..], key), key, f, key2);
    }
  }
}
