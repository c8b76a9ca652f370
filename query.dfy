/**
 * The query shapes the handlers use over a table held as a sequence of rows
 * in storage order: a WHERE clause is `Filter`, `.first()` is `First`, and
 * ORDER BY (or Python's stable `list.sort`) is `SortBy`, a stable insertion
 * sort under a total preorder.
 */
module Query {
  import Wrappers


  ghost predicate TotalPreorder<T(!new)>(le: (T, T) -> bool) {
    && (forall a, b :: le(a, b) || le(b, a))
    && (forall a, b, c :: le(a, b) && le(b, c) ==> le(a, c))
  }

  predicate Sorted<T>(le: (T, T) -> bool, s: seq<T>) {
    forall i, j :: 0 <= i < j < |s| ==> le(s[i], s[j])
  }

  predicate NoDup<T(==)>(s: seq<T>) {
    forall i, j :: 0 <= i < j < |s| ==> s[i] != s[j]
  }

  /** Appending an element not yet present keeps the elements distinct. */
  lemma NoDupSnoc<T>(s: seq<T>, x: T)
    requires NoDup(s) && x !in s
    ensures NoDup(s + [x])
  {
    var t := s + [x];
    forall i, j | 0 <= i < j < |t| ensures t[i] != t[j] {
      assert t[i] == s[i];
      if j < |s| { assert t[j] == s[j]; }
    }
  }

  /** An element not among the rest, followed by distinct rest, gives distinct elements. */
  lemma NoDupCons<T>(x: T, s: seq<T>)
    requires x !in s && NoDup(s)
    ensures NoDup([x] + s)
  {
    var t := [x] + s;
    forall i, j | 0 <= i < j < |t| ensures t[i] != t[j] {
      assert t[j] == s[j - 1];
      if i > 0 { assert t[i] == s[i - 1]; }
    }
  }

  /** No two rows of `s` share a value of `key` (a UNIQUE or PRIMARY KEY column). */
  predicate KeyUnique<T, K(==)>(s: seq<T>, key: T -> K) {
    forall i, j :: 0 <= i < j < |s| ==> key(s[i]) != key(s[j])
  }

  /** `.first()`: the earliest row of `s` that satisfies `p`. */
  function First<T>(s: seq<T>, p: T -> bool): (r: Wrappers.Option<T>)
    ensures r.None? <==> forall i :: 0 <= i < |s| ==> !p(s[i])
    ensures r.Some? ==> exists k :: 0 <= k < |s| && s[k] == r.value && p(s[k]) && forall j :: 0 <= j < k ==> !p(s[j])
  {
    if |s| == 0 then Wrappers.None
    else if p(s[0]) then Wrappers.Some(s[0])
    else
      var r := First(s[1..], p);
      assert forall i :: 1 <= i < |s| ==> s[i] == s[1..][i - 1];
      r
  }

  /** The rows of `s` that satisfy `p`, in their original order. */
  function Filter<T(!new)>(s: seq<T>, p: T -> bool): (r: seq<T>)
    ensures |r| <= |s|
    ensures forall x :: x in r <==> x in s && p(x)
    ensures forall i :: 0 <= i < |r| ==> p(r[i])
    ensures multiset(r) <= multiset(s)
    ensures NoDup(s) ==> NoDup(r)
  {
    if |s| == 0 then []
    else
      var rest := Filter(s[1..], p);
      FilterConsMembers(s, p, rest);
      FilterConsCount(s, p, rest);
      if p(s[0]) then [s[0]] + rest else rest
  }

  /** One step of `Filter`: keeping or dropping the head keeps the members right. */
  lemma FilterConsMembers<T>(s: seq<T>, p: T -> bool, rest: seq<T>)
    requires |s| > 0 && |rest| <= |s| - 1
    requires forall x :: x in rest <==> x in s[1..] && p(x)
    requires forall i :: 0 <= i < |rest| ==> p(rest[i])
    ensures var r := if p(s[0]) then [s[0]] + rest else rest;
      && |r| <= |s|
      && (forall x :: x in r <==> x in s && p(x))
      && forall i :: 0 <= i < |r| ==> p(r[i])
  {
    assert s == [s[0]] + s[1..];
  }

  /** One step of `Filter`: keeping or dropping the head takes nothing twice. */
  lemma FilterConsCount<T>(s: seq<T>, p: T -> bool, rest: seq<T>)
    requires |s| > 0
    requires forall x :: x in rest ==> x in s[1..]
    requires multiset(rest) <= multiset(s[1..])
    requires NoDup(s[1..]) ==> NoDup(rest)
    ensures var r := if p(s[0]) then [s[0]] + rest else rest;
      multiset(r) <= multiset(s) && (NoDup(s) ==> NoDup(r))
  {
    assert s == [s[0]] + s[1..];
    assert multiset(s) == multiset{s[0]} + multiset(s[1..]);
    if NoDup(s) {
      NoDupTail(s);
      if p(s[0]) {
        NoDupCons(s[0], rest);
      }
    }
  }

  /** Inserts `x` into `s` before the first element it does not exceed. */
  function Insert<T(!new)>(le: (T, T) -> bool, x: T, s: seq<T>): (r: seq<T>)
    requires TotalPreorder(le)
    requires Sorted(le, s)
    ensures Sorted(le, r)
    ensures multiset(r) == multiset(s) + multiset{x}
  {
    if |s| == 0 then [x]
    else if le(x, s[0]) then
      assert forall y :: y in s ==> le(x, y) by {
        forall y | y in s ensures le(x, y) {
          var k :| 0 <= k < |s| && s[k] == y;
          if k > 0 { assert le(s[0], s[k]); }
        }
      }
      SortedCons(le, x, s);
      [x] + s
    else
      var rest := Insert(le, x, s[1..]);
      assert s == [s[0]] + s[1..];
      assert forall y :: y in rest ==> le(s[0], y) by {
        forall y | y in rest ensures le(s[0], y) {
          assert y in multiset(rest);
          if y != x {
            var k :| 0 <= k < |s[1..]| && s[1..][k] == y;
            assert s[k + 1] == y;
          }
        }
      }
      SortedCons(le, s[0], rest);
      [s[0]] + rest
  }

  /** A head no greater than any element of a sorted tail gives a sorted sequence. */
  lemma SortedCons<T>(le: (T, T) -> bool, h: T, t: seq<T>)
    requires Sorted(le, t) && forall y :: y in t ==> le(h, y)
    ensures Sorted(le, [h] + t)
  {
    var r := [h] + t;
    forall i, j | 0 <= i < j < |r| ensures le(r[i], r[j]) {
      assert r[j] == t[j - 1];
      if i > 0 { assert r[i] == t[i - 1]; }
    }
  }

  lemma {:induction false} InsertNoDup<T(!new)>(le: (T, T) -> bool, x: T, s: seq<T>)
    requires TotalPreorder(le) && Sorted(le, s)
    requires NoDup(s) && x !in s
    ensures NoDup(Insert(le, x, s))
  {
    var r := Insert(le, x, s);
    forall i, j | 0 <= i < j < |r| ensures r[i] != r[j] {
      var m := multiset(r);
      if r[i] == r[j] {
        assert multiset{r[i], r[j]} <= m by {
          assert r == r[..i] + [r[i]] + r[i + 1..j] + [r[j]] + r[j + 1..];
        }
        assert m[r[i]] >= 2;
        NoDupCount(s, r[i]);
      }
    }
  }

  lemma {:induction false} NoDupCount<T>(s: seq<T>, y: T)
    requires NoDup(s)
    ensures multiset(s)[y] <= 1
  {
    if |s| > 0 {
      assert s == [s[0]] + s[1..];
      NoDupCount(s[1..], y);
      if s[0] == y {
        assert y !in s[1..];
      }
    }
  }

  /** A stable sort of `s` under `le`. */
  function SortBy<T(!new)>(le: (T, T) -> bool, s: seq<T>): (r: seq<T>)
    requires TotalPreorder(le)
    ensures Sorted(le, r)
    ensures multiset(r) == multiset(s)
    ensures |r| == |s|
    ensures forall x :: x in r <==> x in s
    ensures NoDup(s) ==> NoDup(r)
  {
    if |s| == 0 then []
    else
      var rest := SortBy(le, s[1..]);
      SortStep(le, s, rest);
      Insert(le, s[0], rest)
  }

  /** One step of `SortBy`: inserting the head into the sorted tail keeps the elements. */
  lemma SortStep<T(!new)>(le: (T, T) -> bool, s: seq<T>, rest: seq<T>)
    requires TotalPreorder(le) && |s| > 0
    requires Sorted(le, rest) && multiset(rest) == multiset(s[1..])
    requires NoDup(s[1..]) ==> NoDup(rest)
    ensures var r := Insert(le, s[0], rest);
      && multiset(r) == multiset(s) && |r| == |s|
      && (forall x :: x in r <==> x in s)
      && (NoDup(s) ==> NoDup(r))
  {
    assert s == [s[0]] + s[1..];
    var r := Insert(le, s[0], rest);
    assert |r| == |multiset(r)|;
    assert forall x :: x in r <==> x in multiset(r);
    if NoDup(s) {
      NoDupTail(s);
      assert s[0] !in multiset(rest);
      InsertNoDup(le, s[0], rest);
    }
  }

  /** The tail of a duplicate-free sequence is duplicate-free and misses the head. */
  lemma NoDupTail<T>(s: seq<T>)
    requires |s| > 0 && NoDup(s)
    ensures NoDup(s[1..]) && s[0] !in s[1..]
  {
    var t := s[1..];
    forall i, j | 0 <= i < j < |t| ensures t[i] != t[j] {
      assert t[i] == s[i + 1] && t[j] == s[j + 1];
    }
    forall k | 0 <= k < |t| ensures t[k] != s[0] {
      assert t[k] == s[k + 1];
    }
  }

  /** Two predicates that agree on the rows of `s` select the same rows. */
  lemma {:induction false} FilterExt<T(!new)>(s: seq<T>, p: T -> bool, q: T -> bool)
    requires forall x :: x in s ==> (p(x) <==> q(x))
    ensures Filter(s, p) == Filter(s, q)
  {
    if |s| > 0 {
      assert forall x :: x in s[1..] ==> x in s;
      FilterExt(s[1..], p, q);
    }
  }

  /** Filtering by `p` and then by `q` is filtering once by their conjunction `pq`. */
  lemma {:induction false} FilterFilter<T(!new)>(s: seq<T>, p: T -> bool, q: T -> bool, pq: T -> bool)
    requires forall x :: x in s ==> (pq(x) <==> p(x) && q(x))
    ensures Filter(Filter(s, p), q) == Filter(s, pq)
  {
    if |s| > 0 {
      assert forall x :: x in s[1..] ==> x in s;
      FilterFilter(s[1..], p, q, pq);
      var rest := Filter(s[1..], p);
      if p(s[0]) {
        var t := [s[0]] + rest;
        assert Filter(s, p) == t;
        assert t[0] == s[0] && t[1..] == rest;
        if q(s[0]) {
          assert Filter(t, q) == [s[0]] + Filter(rest, q);
        } else {
          assert Filter(t, q) == Filter(rest, q);
        }
      } else {
        assert Filter(s, p) == rest;
        assert !pq(s[0]);
      }
    }
  }

  /** A weaker predicate selects at least the rows a stronger one does. */
  lemma {:induction false} FilterMono<T(!new)>(s: seq<T>, p: T -> bool, q: T -> bool)
    requires forall x :: x in s && p(x) ==> q(x)
    ensures multiset(Filter(s, p)) <= multiset(Filter(s, q))
  {
    if |s| > 0 {
      assert forall x :: x in s[1..] ==> x in s;
      FilterMono(s[1..], p, q);
      var a, b := Filter(s[1..], p), Filter(s[1..], q);
      if p(s[0]) {
        assert Filter(s, p) == [s[0]] + a && Filter(s, q) == [s[0]] + b;
        assert multiset([s[0]] + a) == multiset{s[0]} + multiset(a);
        assert multiset([s[0]] + b) == multiset{s[0]} + multiset(b);
      } else if q(s[0]) {
        assert Filter(s, p) == a && Filter(s, q) == [s[0]] + b;
        assert multiset([s[0]] + b) == multiset{s[0]} + multiset(b);
      } else {
        assert Filter(s, p) == a && Filter(s, q) == b;
      }
    }
  }

  /** Rows unique on some key are distinct. */
  lemma KeyUniqueNoDup<T, K>(s: seq<T>, key: T -> K)
    requires KeyUnique(s, key)
    ensures NoDup(s)
  {
  }

  /** A predicate true of every row keeps the whole table. */
  lemma {:induction false} FilterAll<T(!new)>(s: seq<T>)
    ensures Filter(s, (x: T) => true) == s
  {
    if |s| > 0 {
      FilterAll(s[1..]);
      assert s == [s[0]] + s[1..];
    }
  }

  /** A subset is no larger than its superset. */
  lemma {:induction false} SubsetCard<T>(a: set<T>, b: set<T>)
    requires a <= b
    ensures |a| <= |b|
    decreases |b|
  {
    if a != {} {
      var x :| x in a;
      SubsetCard(a - {x}, b - {x});
    }
  }

  /** `.first()` finds the row at `k` when it matches and no earlier row does. */
  lemma {:induction false} FirstAt<T>(s: seq<T>, p: T -> bool, k: nat)
    requires k < |s| && p(s[k]) && forall j :: 0 <= j < k ==> !p(s[j])
    ensures First(s, p) == Wrappers.Some(s[k])
  {
    if k > 0 {
      FirstAt(s[1..], p, k - 1);
    }
  }
}
