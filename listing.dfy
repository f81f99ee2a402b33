/** The query side shared by the list handlers: scanning a table, filtering,
    `ORDER BY` as a sort under a comparator, and `LIMIT`/`OFFSET` paging. */
module Listing {
  import opened Models

  ghost predicate Distinct<T>(s: seq<T>) {
    forall i, j :: 0 <= i < j < |s| ==> s[i] != s[j]
  }

  /** `before(a, b)`: `a` may be listed ahead of `b` (ties go both ways). */
  ghost predicate SortedBy<T>(s: seq<T>, before: (T, T) -> bool) {
    forall i, j :: 0 <= i < j < |s| ==> before(s[i], s[j])
  }

  ghost predicate TotalPreorder<T(!new)>(before: (T, T) -> bool) {
    && (forall a, b :: before(a, b) || before(b, a))
    && (forall a, b, c :: before(a, b) && before(b, c) ==> before(a, c))
  }

  /** The rows a `WHERE` clause keeps, in table order, with their multiplicities. */
  function Filter<T(!new)>(s: seq<T>, keep: T -> bool): (r: seq<T>)
    ensures forall x :: multiset(r)[x] == if keep(x) then multiset(s)[x] else 0
    ensures forall x :: x in r <==> x in s && keep(x)
  {
    if |s| == 0 then []
    else
      assert s == [s[0]] + s[1..];
      (if keep(s[0]) then [s[0]] else []) + Filter(s[1..], keep)
  }

  function InsertBy<T>(x: T, s: seq<T>, before: (T, T) -> bool): (r: seq<T>)
    ensures multiset(r) == multiset(s) + multiset{x}
  {
    if |s| == 0 then [x]
    else if before(x, s[0]) then [x] + s
    else
      assert s == [s[0]] + s[1..];
      [s[0]] + InsertBy(x, s[1..], before)
  }

  /** `ORDER BY` as an insertion sort: the result is a permutation of the rows. */
  function SortBy<T>(s: seq<T>, before: (T, T) -> bool): (r: seq<T>)
    ensures multiset(r) == multiset(s)
  {
    if |s| == 0 then []
    else
      assert s == [s[0]] + s[1..];
      InsertBy(s[0], SortBy(s[1..], before), before)
  }

  lemma {:induction false} InsertBySorted<T(!new)>(x: T, s: seq<T>, before: (T, T) -> bool)
    requires TotalPreorder(before)
    requires SortedBy(s, before)
    ensures SortedBy(InsertBy(x, s, before), before)
  {
    if |s| > 0 && !before(x, s[0]) {
      var rest := InsertBy(x, s[1..], before);
      InsertBySorted(x, s[1..], before);
      assert before(s[0], x);
      forall j | 0 <= j < |rest| ensures before(s[0], rest[j]) {
        assert rest[j] in multiset(rest);
        assert rest[j] == x || rest[j] in multiset(s[1..]);
        if rest[j] != x {
          var k :| 0 <= k < |s[1..]| && s[1..][k] == rest[j];
          assert s[k + 1] == rest[j];
        }
      }
      assert InsertBy(x, s, before) == [s[0]] + rest;
    }
  }

  lemma {:induction false} SortBySorted<T(!new)>(s: seq<T>, before: (T, T) -> bool)
    requires TotalPreorder(before)
    ensures SortedBy(SortBy(s, before), before)
  {
    if |s| > 0 {
      SortBySorted(s[1..], before);
      InsertBySorted(s[0], SortBy(s[1..], before), before);
    }
  }

  /** Sorting keeps the rows and their number. */
  lemma SortByMembers<T>(s: seq<T>, before: (T, T) -> bool)
    ensures |SortBy(s, before)| == |s|
    ensures forall x :: x in SortBy(s, before) <==> x in s
  {
    var r := SortBy(s, before);
    assert |r| == |multiset(r)| == |multiset(s)| == |s|;
    assert forall x :: x in r ==> x in multiset(s);
    assert forall x :: x in s ==> x in multiset(r);
  }

  lemma {:induction false} CountAtMostOne<T>(s: seq<T>, x: T)
    requires Distinct(s)
    ensures multiset(s)[x] <= 1
  {
    if |s| > 0 {
      assert s == [s[0]] + s[1..];
      CountAtMostOne(s[1..], x);
      if s[0] == x {
        assert x !in s[1..];
      }
    }
  }

  lemma CountTwo<T>(s: seq<T>, i: nat, j: nat)
    requires i < j < |s| && s[i] == s[j]
    ensures multiset(s)[s[i]] >= 2
  {
    assert s == s[..i] + [s[i]] + s[i + 1..j] + [s[j]] + s[j + 1..];
  }

  /** A list in which no row is counted twice has no repeats. */
  lemma DistinctByCount<T>(s: seq<T>)
    requires forall x :: multiset(s)[x] <= 1
    ensures Distinct(s)
  {
    forall i, j | 0 <= i < j < |s| ensures s[i] != s[j] {
      if s[i] == s[j] {
        CountTwo(s, i, j);
      }
    }
  }

  /** A permutation of a list without repeats has no repeats. */
  lemma DistinctPermutation<T>(a: seq<T>, b: seq<T>)
    requires Distinct(a)
    requires multiset(a) == multiset(b)
    ensures Distinct(b)
  {
    forall x ensures multiset(b)[x] <= 1 {
      CountAtMostOne(a, x);
    }
    DistinctByCount(b);
  }

  /** `WHERE` keeps a list without repeats free of repeats. */
  lemma FilterDistinct<T(!new)>(s: seq<T>, keep: T -> bool)
    requires Distinct(s)
    ensures Distinct(Filter(s, keep))
  {
    forall x ensures multiset(Filter(s, keep))[x] <= 1 {
      CountAtMostOne(s, x);
    }
    DistinctByCount(Filter(s, keep));
  }

  function Min(a: int, b: int): int { if a <= b then a else b }
  function Max(a: int, b: int): int { if a <= b then b else a }

  /** `OFFSET (page - 1) * limit`. */
  function Offset(page: int, limit: int): int { (page - 1) * limit }

  /** `LIMIT limit OFFSET (page - 1) * limit`; the database refuses a negative
      limit or offset, which the handlers report as a failed query (None). */
  function Page<T>(rows: seq<T>, page: int, limit: int): (r: Option<seq<T>>)
    ensures r.None? <==> limit < 0 || Offset(page, limit) < 0
    ensures r.Some? ==>
      && |r.value| == Min(limit, Max(0, |rows| - Offset(page, limit)))
      && forall i :: 0 <= i < |r.value| ==> r.value[i] == rows[Offset(page, limit) + i]
  {
    var offset := Offset(page, limit);
    if limit < 0 || offset < 0 then None
    else if offset >= |rows| then Some([])
    else Some(rows[offset..Min(offset + limit, |rows|)])
  }

  /** A page of a sorted listing is sorted, holds at most `limit` rows and
      only rows of the listing. */
  lemma PageOfSorted<T>(rows: seq<T>, page: int, limit: int, before: (T, T) -> bool)
    requires SortedBy(rows, before)
    requires Page(rows, page, limit).Some?
    ensures var w := Page(rows, page, limit).value;
      && |w| <= limit
      && SortedBy(w, before)
      && (forall i :: 0 <= i < |w| ==> w[i] in rows)
      && (Distinct(rows) ==> Distinct(w))
  {
    var offset := Offset(page, limit);
    if offset < |rows| {
      var w := rows[offset..Min(offset + limit, |rows|)];
      assert Page(rows, page, limit).value == w;
      forall i, j | 0 <= i < j < |w| ensures before(w[i], w[j]) {
        assert w[i] == rows[offset + i] && w[j] == rows[offset + j];
      }
    }
  }

  /** A sequential scan of a table: its rows with ids below `n`, by id. */
  function Scan<T(==)>(m: map<nat, T>, n: nat): (r: seq<T>)
    ensures forall x :: x in r ==> x in m.Values
    ensures forall k :: k in m && k < n ==> m[k] in r
  {
    if n == 0 then []
    else Scan(m, n - 1) + (if n - 1 in m then [m[n - 1]] else [])
  }

  /** The scan holds one row per key below `n`, in key order. */
  lemma {:induction false} ScanByKey<T>(m: map<nat, T>, n: nat)
    ensures |Scan(m, n)| == |KeysBelow(m, n)|
    ensures forall i :: 0 <= i < |Scan(m, n)| ==> Scan(m, n)[i] == m[KeysBelow(m, n)[i]]
  {
    if n > 0 {
      ScanByKey(m, n - 1);
      var r, ks := Scan(m, n), KeysBelow(m, n);
      var r0, k0 := Scan(m, n - 1), KeysBelow(m, n - 1);
      if n - 1 in m {
        assert r == r0 + [m[n - 1]];
        assert ks == k0 + [n - 1];
        forall i | 0 <= i < |r| ensures r[i] == m[ks[i]] {
          if i < |r0| {
            assert r[i] == r0[i] && ks[i] == k0[i];
          }
        }
      } else {
        assert r == r0 && ks == k0;
      }
    }
  }

  /** When no two keys hold the same row (each row carries its own id), the
      scan lists every row once. */
  lemma ScanDistinct<T>(m: map<nat, T>, n: nat)
    requires forall a, b :: a in m && b in m && m[a] == m[b] ==> a == b
    ensures Distinct(Scan(m, n))
  {
    var r, ks := Scan(m, n), KeysBelow(m, n);
    ScanByKey(m, n);
    forall i, j | 0 <= i < j < |r| ensures r[i] != r[j] {
      assert r[i] == m[ks[i]] && r[j] == m[ks[j]] && ks[i] < ks[j];
    }
  }

  /** The keys of a table below its next serial id, in ascending order: a scan
      of the table by primary key. */
  function KeysBelow<T>(m: map<nat, T>, n: nat): (ks: seq<nat>)
    ensures forall i :: 0 <= i < |ks| ==> ks[i] in m && ks[i] < n
    ensures forall k :: k in m && k < n ==> k in ks
    ensures forall i, j :: 0 <= i < j < |ks| ==> ks[i] < ks[j]
  {
    if n == 0 then []
    else KeysBelow(m, n - 1) + (if n - 1 in m then [n - 1] else [])
  }
}
