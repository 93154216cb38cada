/** ORDER BY over an order that the database supplies, with and without DISTINCT. */
module Ordering {

  ghost predicate TotalOrder<T(!new)>(leq: (T, T) -> bool) {
    && (forall x, y :: leq(x, y) || leq(y, x))
    && (forall x, y :: leq(x, y) && leq(y, x) ==> x == y)
    && (forall x, y, z :: leq(x, y) && leq(y, z) ==> leq(x, z))
  }

  /** A total order as far as these elements go. */
  ghost predicate TotalOn<T(!new)>(leq: (T, T) -> bool, s: seq<T>) {
    && (forall x, y :: x in s && y in s ==> leq(x, y) || leq(y, x))
    && (forall x, y :: x in s && y in s && leq(x, y) && leq(y, x) ==> x == y)
    && (forall x, y, z :: x in s && y in s && z in s && leq(x, y) && leq(y, z) ==> leq(x, z))
  }

  /** Every element strictly before all later ones. */
  ghost predicate Ascending<T>(s: seq<T>, leq: (T, T) -> bool) {
    forall i, j :: 0 <= i < j < |s| ==> leq(s[i], s[j]) && s[i] != s[j]
  }

  /** Puts an element in its place, unless it is there already. */
  function InsertOnce<T(==)>(x: T, s: seq<T>, leq: (T, T) -> bool): seq<T> {
    if s == [] then [x]
    else if x == s[0] then s
    else if leq(x, s[0]) then [x] + s
    else [s[0]] + InsertOnce(x, s[1..], leq)
  }

  function SortDistinct<T(==)>(s: seq<T>, leq: (T, T) -> bool): seq<T> {
    if s == [] then [] else InsertOnce(s[0], SortDistinct(s[1..], leq), leq)
  }

  lemma LeastIsFirst<T(!new)>(s: seq<T>, x: T, leq: (T, T) -> bool, all: seq<T>)
    requires TotalOn(leq, all) && Ascending(s, leq) && x in s && forall y <- s :: y in all
    ensures leq(s[0], x)
  {
    var i :| 0 <= i < |s| && s[i] == x;
    assert s[0] in all;
  }

  lemma {:induction false} InsertOnceMembers<T(!new)>(x: T, s: seq<T>, leq: (T, T) -> bool, y: T)
    ensures y in InsertOnce(x, s, leq) <==> y == x || y in s
  {
    if s != [] && x != s[0] && !leq(x, s[0]) {
      InsertOnceMembers(x, s[1..], leq, y);
    }
  }

  lemma PrependAscending<T(!new)>(x: T, s: seq<T>, leq: (T, T) -> bool)
    requires Ascending(s, leq) && forall y <- s :: leq(x, y) && x != y
    ensures Ascending([x] + s, leq)
  {
    forall j | 0 <= j < |s|
      ensures leq(x, s[j]) && x != s[j]
    {
      assert s[j] in s;
    }
  }

  lemma {:induction false} InsertOnceAscending<T(!new)>(x: T, s: seq<T>, leq: (T, T) -> bool, all: seq<T>)
    requires TotalOn(leq, all) && Ascending(s, leq)
    requires x in all && forall y <- s :: y in all
    ensures Ascending(InsertOnce(x, s, leq), leq)
  {
    if s != [] && x != s[0] {
      assert s[0] in s && s[0] in all;
      if leq(x, s[0]) {
        forall y | y in s
          ensures leq(x, y) && x != y
        {
          LeastIsFirst(s, y, leq, all);
        }
        PrependAscending(x, s, leq);
      } else {
        var rest := InsertOnce(x, s[1..], leq);
        InsertOnceAscending(x, s[1..], leq, all);
        forall y | y in rest
          ensures leq(s[0], y) && s[0] != y
        {
          InsertOnceMembers(x, s[1..], leq, y);
        }
        PrependAscending(s[0], rest, leq);
      }
    }
  }

  lemma {:induction false} SortDistinctAscending<T(!new)>(s: seq<T>, leq: (T, T) -> bool, all: seq<T>)
    requires TotalOn(leq, all) && forall y <- s :: y in all
    ensures Ascending(SortDistinct(s, leq), leq)
    ensures forall y :: y in SortDistinct(s, leq) <==> y in s
  {
    if s != [] {
      SortDistinctAscending(s[1..], leq, all);
      InsertOnceAscending(s[0], SortDistinct(s[1..], leq), leq, all);
      forall y
        ensures y in SortDistinct(s, leq) <==> y in s
      {
        InsertOnceMembers(s[0], SortDistinct(s[1..], leq), leq, y);
      }
    }
  }

  /** An ascending listing is fixed by its elements, whatever order the rows came in. */
  lemma {:induction false} AscendingUnique<T(!new)>(s: seq<T>, t: seq<T>, leq: (T, T) -> bool, all: seq<T>)
    requires TotalOn(leq, all) && Ascending(s, leq) && Ascending(t, leq)
    requires (forall y <- s :: y in all) && forall y :: y in s <==> y in t
    ensures s == t
  {
    if t != [] {
      assert t[0] in t;
    }
    if s != [] {
      assert s[0] in s;
      LeastIsFirst(s, t[0], leq, all);
      LeastIsFirst(t, s[0], leq, all);
      forall y
        ensures y in s[1..] <==> y in t[1..]
      {
        assert y in s <==> y == s[0] || y in s[1..];
        assert y in t <==> y == t[0] || y in t[1..];
        assert s[0] !in s[1..] && t[0] !in t[1..];
      }
      AscendingUnique(s[1..], t[1..], leq, all);
    }
  }

  // Lists without a twin

  lemma {:induction false} OnceEach<T(!new)>(s: seq<T>)
    requires forall i, j :: 0 <= i < j < |s| ==> s[i] != s[j]
    ensures forall x :: multiset(s)[x] == if x in s then 1 else 0
  {
    if s != [] {
      var rest := s[1..];
      assert s == [s[0]] + rest;
      assert forall i :: 0 <= i < |rest| ==> rest[i] == s[i + 1];
      OnceEach(rest);
      assert s[0] !in rest;
    }
  }

  lemma Twice<T>(s: seq<T>, i: nat, j: nat)
    requires i < j < |s| && s[i] == s[j]
    ensures multiset(s)[s[i]] >= 2
  {
    assert s == s[..i] + [s[i]] + s[i + 1..j] + [s[j]] + s[j + 1..];
  }
}
