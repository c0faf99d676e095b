/** Sequence vocabulary shared by the filter and the statistics:
    occurrence counts, order-preserving selection, subsequences, sums and extremes. */
module Seqs {
  import opened Wrappers

  /** Number of positions of `s` holding `x` (what `value_counts` reports per value). */
  function Occurrences<T(==)>(s: seq<T>, x: T): (n: nat)
    ensures n <= |s|
    ensures n > 0 <==> x in s
  {
    if s == [] then 0
    else (if s[0] == x then 1 else 0) + Occurrences(s[1..], x)
  }

  lemma {:induction false} OccurrencesAppend<T>(a: seq<T>, b: seq<T>, x: T)
    ensures Occurrences(a + b, x) == Occurrences(a, x) + Occurrences(b, x)
  {
    if a == [] {
      assert a + b == b;
    } else {
      assert (a + b)[1..] == a[1..] + b;
      OccurrencesAppend(a[1..], b, x);
    }
  }

  /** Two different values together occur at most as often as there are positions. */
  lemma {:induction false} OccurrencesOfTwo<T>(s: seq<T>, a: T, b: T)
    requires a != b
    ensures Occurrences(s, a) + Occurrences(s, b) <= |s|
  {
    if s != [] {
      OccurrencesOfTwo(s[1..], a, b);
    }
  }

  /** One column of a table: `f` applied to every row, in row order. */
  function Column<R, T>(rows: seq<R>, f: R -> T): (c: seq<T>)
    ensures |c| == |rows|
  {
    seq(|rows|, i requires 0 <= i < |rows| => f(rows[i]))
  }

  /** A value occurs in a column as many times as there are rows whose cell holds it. */
  lemma {:induction false} ColumnOccurrences<R, T>(rows: seq<R>, f: R -> T, v: T, holds: R -> bool)
    requires forall r :: holds(r) == (f(r) == v)
    ensures Occurrences(Column(rows, f), v) == |Where(rows, holds)|
  {
    if rows != [] {
      assert Column(rows, f)[1..] == Column(rows[1..], f);
      ColumnOccurrences(rows[1..], f, v, holds);
    }
  }

  /** The elements of `s` satisfying `p`, in their original order (a boolean mask). */
  function Where<T>(s: seq<T>, p: T -> bool): (r: seq<T>)
    ensures |r| <= |s|
    ensures forall x :: x in r ==> x in s && p(x)
  {
    if s == [] then []
    else (if p(s[0]) then [s[0]] else []) + Where(s[1..], p)
  }

  /** Selection keeps exactly the occurrences that satisfy `p` and drops the others. */
  lemma {:induction false} WhereOccurrences<T>(s: seq<T>, p: T -> bool, x: T)
    ensures Occurrences(Where(s, p), x) == if p(x) then Occurrences(s, x) else 0
  {
    if s != [] {
      WhereOccurrences(s[1..], p, x);
      OccurrencesAppend(if p(s[0]) then [s[0]] else [], Where(s[1..], p), x);
    }
  }

  /** Selecting with a condition every element meets changes nothing. */
  lemma {:induction false} WhereAll<T>(s: seq<T>, p: T -> bool)
    requires forall x :: x in s ==> p(x)
    ensures Where(s, p) == s
  {
    if s != [] {
      WhereAll(s[1..], p);
      assert [s[0]] + s[1..] == s;
    }
  }

  /** Two selections in a row are one selection with the conjunction. */
  lemma {:induction false} WhereWhere<T>(s: seq<T>, p: T -> bool, q: T -> bool, pq: T -> bool)
    requires forall x :: pq(x) == (p(x) && q(x))
    ensures Where(Where(s, p), q) == Where(s, pq)
  {
    if s != [] {
      var head := if p(s[0]) then [s[0]] else [];
      WhereAppend(head, Where(s[1..], p), q);
      WhereWhere(s[1..], p, q, pq);
    }
  }

  lemma {:induction false} WhereAppend<T>(a: seq<T>, b: seq<T>, p: T -> bool)
    ensures Where(a + b, p) == Where(a, p) + Where(b, p)
  {
    if a == [] {
      assert a + b == b;
    } else {
      assert (a + b)[1..] == a[1..] + b;
      WhereAppend(a[1..], b, p);
    }
  }

  /** `a` can be obtained from `b` by deleting elements, keeping the order of the rest. */
  predicate IsSubsequence<T(==)>(a: seq<T>, b: seq<T>)
    decreases |b|
  {
    a == [] || (b != [] &&
      ((a[0] == b[0] && IsSubsequence(a[1..], b[1..])) || IsSubsequence(a, b[1..])))
  }

  lemma {:induction false} WhereSubsequence<T>(s: seq<T>, p: T -> bool)
    ensures IsSubsequence(Where(s, p), s)
  {
    if s != [] {
      WhereSubsequence(s[1..], p);
      var r := Where(s, p);
      if p(s[0]) {
        assert r[0] == s[0] && r[1..] == Where(s[1..], p);
      } else {
        assert r == Where(s[1..], p);
      }
    }
  }

  /** Sum of a column of non-negative integers (0 for an empty column). */
  function Sum(s: seq<nat>): nat
  {
    if s == [] then 0 else s[0] + Sum(s[1..])
  }

  /** Smallest element, absent for an empty sequence. */
  function Min(s: seq<int>): (r: Option<int>)
    ensures r.Some? <==> s != []
    ensures r.Some? ==> r.value in s && forall x :: x in s ==> r.value <= x
  {
    if s == [] then None
    else
      var rest := Min(s[1..]);
      assert forall x :: x in s ==> x == s[0] || x in s[1..];
      if rest.None? || s[0] <= rest.value then Some(s[0]) else rest
  }

  /** Largest element, absent for an empty sequence. */
  function Max(s: seq<int>): (r: Option<int>)
    ensures r.Some? <==> s != []
    ensures r.Some? ==> r.value in s && forall x :: x in s ==> x <= r.value
  {
    if s == [] then None
    else
      var rest := Max(s[1..]);
      assert forall x :: x in s ==> x == s[0] || x in s[1..];
      if rest.None? || s[0] >= rest.value then Some(s[0]) else rest
  }
}
