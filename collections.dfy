/** Row collections as the SQL statements of the handlers see them: a WHERE clause is a
    `Filter`, an ORDER BY is a `SortDesc` (ascending orders use a negated key), a handler's
    answer is a `Result` that is either a value or an HTTP status code. */
module Collections {

  datatype Option<T> = None | Some(value: T)

  /** A handler's answer: a payload, or the HTTP status of the error it returns. */
  datatype Result<T> = Ok(value: T) | Err(status: int)

  function Min(a: int, b: int): int { if a <= b then a else b }

  /** The rows of `s` that satisfy `p`, in their original order. */
  function Filter<T(!new)>(s: seq<T>, p: T -> bool): (r: seq<T>)
    ensures |r| <= |s|
    ensures forall x :: x in r <==> x in s && p(x)
  {
    if s == [] then []
    else
      assert s == [s[0]] + s[1..];
      (if p(s[0]) then [s[0]] else []) + Filter(s[1..], p)
  }

  /** A WHERE clause keeps every copy of a row it selects and no copy of a row it rejects. */
  lemma {:induction false} FilterCount<T(!new)>(s: seq<T>, p: T -> bool)
    ensures forall x :: multiset(Filter(s, p))[x] == if p(x) then multiset(s)[x] else 0
  {
    if s != [] {
      FilterCount(s[1..], p);
      assert s == [s[0]] + s[1..];
      var head := if p(s[0]) then [s[0]] else [];
      assert Filter(s, p) == head + Filter(s[1..], p);
      assert multiset(Filter(s, p)) == multiset(head) + multiset(Filter(s[1..], p));
      assert multiset(s) == multiset{s[0]} + multiset(s[1..]);
    }
  }

  lemma {:induction false} FilterSnoc<T(!new)>(s: seq<T>, x: T, p: T -> bool)
    ensures Filter(s + [x], p) == Filter(s, p) + (if p(x) then [x] else [])
  {
    if s == [] {
      assert s + [x] == [x];
      assert [x][1..] == [];
    } else {
      var t := s + [x];
      assert t[0] == s[0] && t[1..] == s[1..] + [x];
      FilterSnoc(s[1..], x, p);
      var head := if p(s[0]) then [s[0]] else [];
      assert Filter(t, p) == head + Filter(t[1..], p);
      assert Filter(s, p) == head + Filter(s[1..], p);
    }
  }

  /** Two WHERE clauses that agree on every row select the same rows. */
  lemma {:induction false} FilterCongruent<T(!new)>(s: seq<T>, p: T -> bool, q: T -> bool)
    requires forall x :: x in s ==> p(x) == q(x)
    ensures Filter(s, p) == Filter(s, q)
  {
    if s != [] {
      assert s[0] in s;
      forall x | x in s[1..] ensures p(x) == q(x) { assert x in s; }
      FilterCongruent(s[1..], p, q);
    }
  }

  /** A WHERE clause that every row satisfies keeps the listing as it is. */
  lemma {:induction false} FilterKeepsAll<T(!new)>(s: seq<T>, p: T -> bool)
    requires forall x :: x in s ==> p(x)
    ensures Filter(s, p) == s
  {
    if s != [] {
      assert s[0] in s;
      forall x | x in s[1..] ensures p(x) { assert x in s; }
      FilterKeepsAll(s[1..], p);
      assert Filter(s, p) == [s[0]] + Filter(s[1..], p);
      assert s == [s[0]] + s[1..];
    }
  }

  /** A WHERE clause that no row satisfies selects nothing. */
  lemma {:induction false} FilterNone<T(!new)>(s: seq<T>, p: T -> bool)
    requires forall x :: x in s ==> !p(x)
    ensures Filter(s, p) == []
  {
    if s != [] {
      assert s[0] in s;
      forall x | x in s[1..] ensures !p(x) { assert x in s; }
      FilterNone(s[1..], p);
    }
  }

  /** `SELECT DISTINCT`: the first occurrence of every value, in listing order. */
  function Distinct<T(==,!new)>(s: seq<T>): (r: seq<T>)
    ensures forall x :: x in r <==> x in s
    ensures forall i, j :: 0 <= i < j < |r| ==> r[i] != r[j]
    ensures |r| <= |s|
  {
    if s == [] then []
    else
      var init := s[..|s| - 1];
      var last := s[|s| - 1];
      assert s == init + [last];
      var rest := Distinct(init);
      if last in rest then rest else rest + [last]
  }

  /** Rows ordered so that `key` never increases (ORDER BY key DESC). */
  ghost predicate SortedDesc<T>(s: seq<T>, key: T -> int) {
    forall i, j :: 0 <= i < j < |s| ==> key(s[i]) >= key(s[j])
  }

  /** Filtering an ordered listing keeps it ordered. */
  lemma {:induction false} FilterKeepsOrder<T(!new)>(s: seq<T>, p: T -> bool, key: T -> int)
    requires SortedDesc(s, key)
    ensures SortedDesc(Filter(s, p), key)
  {
    if s != [] {
      var rest := s[1..];
      SortedTail(s, key);
      FilterKeepsOrder(rest, p, key);
      var tail := Filter(rest, p);
      if p(s[0]) {
        forall k | 0 <= k < |tail| ensures key(tail[k]) <= key(s[0]) {
          assert tail[k] in rest;
          var m :| 0 <= m < |rest| && rest[m] == tail[k];
        }
        SortedCons(s[0], tail, key);
        assert Filter(s, p) == [s[0]] + tail;
      }
    }
  }

  /** The rows after the first of an ordered listing are ordered and no larger than it. */
  lemma SortedTail<T>(s: seq<T>, key: T -> int)
    requires SortedDesc(s, key) && s != []
    ensures SortedDesc(s[1..], key)
    ensures forall k :: 0 <= k < |s| - 1 ==> key(s[1..][k]) <= key(s[0])
  {
    var rest := s[1..];
    forall i, j | 0 <= i < j < |rest| ensures key(rest[i]) >= key(rest[j]) {
      assert rest[i] == s[i + 1] && rest[j] == s[j + 1];
    }
    forall k | 0 <= k < |s| - 1 ensures key(rest[k]) <= key(s[0]) {
      assert rest[k] == s[k + 1];
    }
  }

  /** A row no smaller than every row of an ordered listing can lead it. */
  lemma SortedCons<T>(h: T, t: seq<T>, key: T -> int)
    requires SortedDesc(t, key) && forall k :: 0 <= k < |t| ==> key(t[k]) <= key(h)
    ensures SortedDesc([h] + t, key)
  {
    var r := [h] + t;
    forall i, j | 0 <= i < j < |r| ensures key(r[i]) >= key(r[j]) {
      assert r[j] == t[j - 1];
      if i > 0 {
        assert r[i] == t[i - 1];
      }
    }
  }

  /** `rel` holds of every pair of rows, taken in listing order. */
  ghost predicate Pairwise<T>(s: seq<T>, rel: (T, T) -> bool) {
    forall i, j :: 0 <= i < j < |s| ==> rel(s[i], s[j])
  }

  /** Deleting rows (a WHERE-selected DELETE keeps the complement) keeps a pairwise
      property such as a unique key. */
  lemma {:induction false} FilterKeepsPairwise<T(!new)>(s: seq<T>, p: T -> bool, rel: (T, T) -> bool)
    requires Pairwise(s, rel)
    ensures Pairwise(Filter(s, p), rel)
  {
    if s != [] {
      var rest := s[1..];
      PairwiseTail(s, rel);
      FilterKeepsPairwise(rest, p, rel);
      var tail := Filter(rest, p);
      assert Filter(s, p) == (if p(s[0]) then [s[0]] else []) + tail;
      if p(s[0]) {
        PairwiseCons(s[0], tail, rel);
      }
    }
  }

  /** The rows after the first of a pairwise-related sequence are pairwise related, and the
      first is related to each of them. */
  lemma PairwiseTail<T>(s: seq<T>, rel: (T, T) -> bool)
    requires s != [] && Pairwise(s, rel)
    ensures Pairwise(s[1..], rel)
    ensures forall y :: y in s[1..] ==> rel(s[0], y)
  {
    var rest := s[1..];
    forall i, j | 0 <= i < j < |rest| ensures rel(rest[i], rest[j]) {
      assert rest[i] == s[i + 1] && rest[j] == s[j + 1];
    }
    forall y | y in rest ensures rel(s[0], y) {
      var m :| 0 <= m < |rest| && rest[m] == y;
      assert s[m + 1] == y;
    }
  }

  /** A row related to every row of a pairwise-related sequence may lead it. */
  lemma PairwiseCons<T>(h: T, t: seq<T>, rel: (T, T) -> bool)
    requires Pairwise(t, rel) && forall y :: y in t ==> rel(h, y)
    ensures Pairwise([h] + t, rel)
  {
    var r := [h] + t;
    forall i, j | 0 <= i < j < |r| ensures rel(r[i], r[j]) {
      assert r[j] == t[j - 1];
      if i > 0 {
        assert r[i] == t[i - 1];
      }
    }
  }

  /** Inserts `x` into a listing ordered by `key`, before the first row with a smaller key. */
  function Insert<T>(x: T, s: seq<T>, key: T -> int): (r: seq<T>)
    requires SortedDesc(s, key)
    ensures SortedDesc(r, key)
    ensures multiset(r) == multiset(s) + multiset{x}
    ensures |r| == |s| + 1
  {
    if s == [] || key(x) >= key(s[0]) then
      LeadsSorted(x, s, key);
      SortedCons(x, s, key);
      [x] + s
    else
      SortedTail(s, key);
      var rest := Insert(x, s[1..], key);
      BoundedByHead(s[0], x, s[1..], rest, key);
      SortedCons(s[0], rest, key);
      assert s == [s[0]] + s[1..];
      [s[0]] + rest
  }

  /** A row no smaller than the first of an ordered listing is no smaller than any. */
  lemma LeadsSorted<T>(x: T, s: seq<T>, key: T -> int)
    requires SortedDesc(s, key) && (s == [] || key(x) >= key(s[0]))
    ensures forall k :: 0 <= k < |s| ==> key(s[k]) <= key(x)
  {
  }

  /** Inserting a row no larger than `h` into rows no larger than `h` gives rows no larger
      than `h`. */
  lemma BoundedByHead<T>(h: T, x: T, t: seq<T>, r: seq<T>, key: T -> int)
    requires forall k :: 0 <= k < |t| ==> key(t[k]) <= key(h)
    requires key(x) <= key(h)
    requires multiset(r) == multiset(t) + multiset{x}
    ensures forall k :: 0 <= k < |r| ==> key(r[k]) <= key(h)
  {
    forall k | 0 <= k < |r| ensures key(r[k]) <= key(h) {
      var y := r[k];
      assert y in multiset(r);
      if y != x {
        assert y in multiset(t);
        var m :| 0 <= m < |t| && t[m] == y;
      }
    }
  }

  /** ORDER BY key DESC: an ordered permutation of `s`. */
  function SortDesc<T>(s: seq<T>, key: T -> int): (r: seq<T>)
    ensures SortedDesc(r, key)
    ensures multiset(r) == multiset(s)
    ensures |r| == |s|
  {
    if s == [] then []
    else
      assert s == [s[0]] + s[1..];
      Insert(s[0], SortDesc(s[1..], key), key)
  }

  /** `SELECT ... WHERE p ORDER BY key DESC`: the selected rows, each as often as it occurs,
      newest (largest key) first. */
  function SelectOrdered<T(!new)>(s: seq<T>, p: T -> bool, key: T -> int): (r: seq<T>)
    ensures SortedDesc(r, key)
    ensures forall x :: multiset(r)[x] == if p(x) then multiset(s)[x] else 0
    ensures forall x :: x in r <==> x in s && p(x)
    ensures multiset(r) == multiset(Filter(s, p)) && |r| == |Filter(s, p)|
  {
    FilterCount(s, p);
    var r := SortDesc(Filter(s, p), key);
    assert forall x :: x in r <==> x in Filter(s, p) by {
      forall x ensures x in r <==> x in Filter(s, p) {
        assert x in r <==> multiset(r)[x] > 0;
        assert x in Filter(s, p) <==> multiset(Filter(s, p))[x] > 0;
      }
    }
    r
  }

  /** TOP n of an ordered listing is ordered. */
  lemma PrefixKeepsOrder<T>(s: seq<T>, n: nat, key: T -> int)
    requires SortedDesc(s, key) && n <= |s|
    ensures SortedDesc(s[..n], key)
  {
    var p := s[..n];
    forall i, j | 0 <= i < j < |p| ensures key(p[i]) >= key(p[j]) {
      assert p[i] == s[i] && p[j] == s[j];
    }
  }

  /** The rows that a TOP n / FETCH NEXT n keeps from an ordered listing are no smaller (in
      `key`) than any row it drops. */
  lemma PrefixDominates<T>(s: seq<T>, n: nat, key: T -> int, x: T)
    requires SortedDesc(s, key)
    requires n <= |s|
    requires multiset(s[..n])[x] < multiset(s)[x]
    ensures forall k :: 0 <= k < n ==> key(s[k]) >= key(x)
  {
    assert s == s[..n] + s[n..];
    assert multiset(s) == multiset(s[..n]) + multiset(s[n..]);
    assert x in s[n..];
    var m :| 0 <= m < |s[n..]| && s[n..][m] == x;
    assert s[n + m] == x;
  }

  /** First components of a listing of pairs. */
  function Firsts<A, B>(v: seq<(A, B)>): (r: seq<A>)
    ensures |r| == |v| && forall k :: 0 <= k < |v| ==> r[k] == v[k].0
  {
    seq(|v|, k requires 0 <= k < |v| => v[k].0)
  }

  /** Second components of a listing of pairs. */
  function Seconds<A, B>(v: seq<(A, B)>): (r: seq<B>)
    ensures |r| == |v| && forall k :: 0 <= k < |v| ==> r[k] == v[k].1
  {
    seq(|v|, k requires 0 <= k < |v| => v[k].1)
  }
}
