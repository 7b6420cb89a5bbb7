/**
 * The query shapes the two GET handlers build: a filter, an optional ascending
 * ORDER BY on one text column, and OFFSET / LIMIT.
 */
module Listing {
  import opened Wrappers
  import opened Text

  /** The rows that satisfy a WHERE clause, in the order the table holds them. */
  function Filter<T(!new)>(xs: seq<T>, keep: T -> bool): (r: seq<T>)
    ensures |r| <= |xs|
    ensures forall x :: x in r <==> x in xs && keep(x)
    ensures forall x | keep(x) :: multiset(r)[x] == multiset(xs)[x]
    decreases |xs|
  {
    if |xs| == 0 then []
    else
      var rest := Filter(xs[1..], keep);
      assert xs == [xs[0]] + xs[1..];
      if keep(xs[0]) then [xs[0]] + rest else rest
  }

  /** Two WHERE clauses that agree on every row select the same rows. */
  lemma {:induction false} FilterAgrees<T(!new)>(xs: seq<T>, f: T -> bool, g: T -> bool)
    requires forall x :: f(x) == g(x)
    ensures Filter(xs, f) == Filter(xs, g)
    decreases |xs|
  {
    if |xs| > 0 {
      FilterAgrees(xs[1..], f, g);
    }
  }

  /** The rows are in non-decreasing order of the text column `key`. */
  predicate SortedBy<T>(xs: seq<T>, key: T -> string)
  {
    forall i, j | 0 <= i < j < |xs| :: LexLe(key(xs[i]), key(xs[j]))
  }

  lemma ConsSorted<T>(h: T, xs: seq<T>, key: T -> string)
    requires SortedBy(xs, key)
    requires forall y | y in xs :: LexLe(key(h), key(y))
    ensures SortedBy([h] + xs, key)
  {
    var r := [h] + xs;
    forall i, j | 0 <= i < j < |r|
      ensures LexLe(key(r[i]), key(r[j]))
    {
      assert r[j] == xs[j - 1];
      if i > 0 {
        assert r[i] == xs[i - 1];
      }
    }
  }

  /** A row no greater than the head of a sorted sequence is no greater than any of it. */
  lemma BelowHead<T>(x: T, xs: seq<T>, key: T -> string)
    requires SortedBy(xs, key) && |xs| > 0
    requires LexLe(key(x), key(xs[0]))
    ensures forall y | y in xs :: LexLe(key(x), key(y))
  {
    forall y | y in xs
      ensures LexLe(key(x), key(y))
    {
      var j :| 0 <= j < |xs| && xs[j] == y;
      if j > 0 {
        LexLeTransitive(key(x), key(xs[0]), key(y));
      }
    }
  }

  /** The head of a sorted sequence bounds what remains after inserting a larger row into its tail. */
  lemma HeadBelowRest<T>(x: T, xs: seq<T>, rest: seq<T>, key: T -> string)
    requires SortedBy(xs, key) && |xs| > 0
    requires LexLe(key(xs[0]), key(x))
    requires multiset(rest) == multiset(xs[1..]) + multiset{x}
    ensures forall y | y in rest :: LexLe(key(xs[0]), key(y))
  {
    forall y | y in rest
      ensures LexLe(key(xs[0]), key(y))
    {
      assert y in multiset(rest);
      if y != x {
        assert y in multiset(xs[1..]);
        var j :| 0 <= j < |xs[1..]| && xs[1..][j] == y;
        assert xs[j + 1] == y;
      }
    }
  }

  function InsertBy<T>(x: T, xs: seq<T>, key: T -> string): (r: seq<T>)
    requires SortedBy(xs, key)
    ensures SortedBy(r, key)
    ensures multiset(r) == multiset(xs) + multiset{x}
    decreases |xs|
  {
    if |xs| == 0 then [x]
    else if LexLe(key(x), key(xs[0])) then
      BelowHead(x, xs, key);
      ConsSorted(x, xs, key);
      [x] + xs
    else
      LexLeTotal(key(x), key(xs[0]));
      assert SortedBy(xs[1..], key) by {
        forall i, j | 0 <= i < j < |xs[1..]|
          ensures LexLe(key(xs[1..][i]), key(xs[1..][j]))
        {
          assert xs[1..][i] == xs[i + 1] && xs[1..][j] == xs[j + 1];
        }
      }
      var rest := InsertBy(x, xs[1..], key);
      HeadBelowRest(x, xs, rest, key);
      ConsSorted(xs[0], rest, key);
      assert xs == [xs[0]] + xs[1..];
      [xs[0]] + rest
  }

  /**
   * ORDER BY key ASC: the rows rearranged into non-decreasing key order.
   * The order among rows with equal keys is left to the store, so nothing is
   * promised about it.
   */
  function SortBy<T>(xs: seq<T>, key: T -> string): (r: seq<T>)
    ensures SortedBy(r, key)
    ensures multiset(r) == multiset(xs)
    decreases |xs|
  {
    if |xs| == 0 then []
    else
      assert xs == [xs[0]] + xs[1..];
      InsertBy(xs[0], SortBy(xs[1..], key), key)
  }

  /** How many rows OFFSET skips; a negative offset skips none. */
  function Skip(offset: Option<int>): nat
  {
    if offset.Some? && offset.value > 0 then offset.value else 0
  }

  /**
   * OFFSET / LIMIT: skip `offset` rows, then keep at most `limit`. A negative
   * offset counts as zero and a negative limit means no limit.
   */
  function Paginate<T>(xs: seq<T>, offset: Option<int>, limit: Option<int>): (r: seq<T>)
    ensures |r| <= |xs|
    ensures limit.Some? && limit.value >= 0 ==> |r| <= limit.value
    ensures forall i | 0 <= i < |r| :: Skip(offset) + i < |xs| && r[i] == xs[Skip(offset) + i]
    ensures Skip(offset) < |xs| && (limit.None? || limit.value < 0 || Skip(offset) + limit.value >= |xs|)
      ==> Skip(offset) + |r| == |xs|
  {
    var start := if Skip(offset) <= |xs| then Skip(offset) else |xs|;
    var rest := xs[start..];
    if limit.Some? && 0 <= limit.value < |rest| then rest[..limit.value] else rest
  }

  /** List-style drop: the rows after the first n. */
  function Drop<T>(n: nat, xs: seq<T>): seq<T>
    decreases n
  {
    if n == 0 || |xs| == 0 then xs else Drop(n - 1, xs[1..])
  }

  /** List-style take: the first n rows, or all of them if there are fewer. */
  function Take<T>(n: nat, xs: seq<T>): seq<T>
    decreases n
  {
    if n == 0 || |xs| == 0 then [] else [xs[0]] + Take(n - 1, xs[1..])
  }

  lemma {:induction false} DropIsSuffix<T>(n: nat, xs: seq<T>)
    ensures Drop(n, xs) == if n <= |xs| then xs[n..] else []
    decreases n
  {
    if n > 0 && |xs| > 0 {
      DropIsSuffix(n - 1, xs[1..]);
      if n <= |xs| {
        assert xs[1..][n - 1..] == xs[n..];
      }
    }
  }

  lemma {:induction false} TakeIsPrefix<T>(n: nat, xs: seq<T>)
    ensures Take(n, xs) == if n <= |xs| then xs[..n] else xs
    decreases n
  {
    if n > 0 && |xs| > 0 {
      TakeIsPrefix(n - 1, xs[1..]);
      if n <= |xs| {
        assert xs[..n] == [xs[0]] + xs[1..][..n - 1];
      } else {
        assert xs == [xs[0]] + xs[1..];
      }
    }
  }

  /** OFFSET / LIMIT is take-after-drop, with the negative cases read as described above. */
  lemma PaginateIsTakeDrop<T>(xs: seq<T>, offset: Option<int>, limit: Option<int>)
    ensures Paginate(xs, offset, limit) ==
      if limit.Some? && limit.value >= 0 then Take(limit.value, Drop(Skip(offset), xs))
      else Drop(Skip(offset), xs)
  {
    DropIsSuffix(Skip(offset), xs);
    var dropped := Drop(Skip(offset), xs);
    if limit.Some? && limit.value >= 0 {
      TakeIsPrefix(limit.value, dropped);
    }
  }

  /** Paginating a projection is projecting the page: OFFSET / LIMIT commute with picking a column. */
  lemma PaginateMap<T, U>(xs: seq<T>, f: T -> U, offset: Option<int>, limit: Option<int>)
    ensures Paginate(seq(|xs|, i requires 0 <= i < |xs| => f(xs[i])), offset, limit) ==
      var page := Paginate(xs, offset, limit);
      seq(|page|, i requires 0 <= i < |page| => f(page[i]))
  {
  }
}
