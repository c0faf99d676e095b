/** The most frequent value of a column, with ties going to the smallest value:
    `Series.mode()` lists all most frequent values in ascending order and the
    statistics take the first one. */
module Frequency {
  import opened Wrappers
  import opened Seqs

  /** `le` is a total order (reflexive by totality, antisymmetric, transitive). */
  ghost predicate TotalOrder<T(!new)>(le: (T, T) -> bool)
  {
    && (forall a, b :: le(a, b) || le(b, a))
    && (forall a, b :: le(a, b) && le(b, a) ==> a == b)
    && (forall a, b, c :: le(a, b) && le(b, c) ==> le(a, c))
  }

  /** Independent statement of what the mode is: a value of `s` that occurs at least as
      often as any other, and that is the smallest among the values occurring as often. */
  ghost predicate IsMode<T>(s: seq<T>, m: T, le: (T, T) -> bool)
  {
    && m in s
    && (forall y :: y in s ==> Occurrences(s, y) <= Occurrences(s, m))
    && (forall y :: y in s && Occurrences(s, y) == Occurrences(s, m) ==> le(m, y))
  }

  /** `x` is preferred to `y` as a mode of `s`: more frequent, or as frequent and smaller. */
  predicate Beats<T(==)>(s: seq<T>, le: (T, T) -> bool, x: T, y: T)
  {
    Occurrences(s, x) > Occurrences(s, y) || (Occurrences(s, x) == Occurrences(s, y) && le(x, y))
  }

  /** The preferred value among the candidates `c`, judged by frequency in `s`. */
  function Best<T(==)>(c: seq<T>, s: seq<T>, le: (T, T) -> bool): (b: T)
    requires c != []
    ensures b in c
  {
    if |c| == 1 then c[0]
    else
      var rest := Best(c[1..], s, le);
      if Beats(s, le, c[0], rest) then c[0] else rest
  }

  /** The mode of `s`: None for an empty column (where `mode()[0]` has no first element). */
  function Mode<T(==)>(s: seq<T>, le: (T, T) -> bool): (r: Option<T>)
    ensures r.Some? <==> s != []
    ensures r.Some? ==> r.value in s
  {
    if s == [] then None else Some(Best(s, s, le))
  }

  lemma {:induction false} BestIsPreferred<T(!new)>(c: seq<T>, s: seq<T>, le: (T, T) -> bool)
    requires c != [] && TotalOrder(le)
    ensures forall y :: y in c ==> Occurrences(s, y) <= Occurrences(s, Best(c, s, le))
    ensures forall y :: y in c && Occurrences(s, y) == Occurrences(s, Best(c, s, le))
                        ==> le(Best(c, s, le), y)
  {
    if |c| > 1 {
      BestIsPreferred(c[1..], s, le);
      assert forall y :: y in c ==> y == c[0] || y in c[1..];
    }
  }

  /** For a non-empty column under a total order, `Mode` meets the definition of the mode. */
  lemma ModeIsMode<T(!new)>(s: seq<T>, le: (T, T) -> bool)
    requires s != [] && TotalOrder(le)
    ensures Mode(s, le).Some? && IsMode(s, Mode(s, le).value, le)
  {
    BestIsPreferred(s, s, le);
  }

  /** Any value meeting the definition of the mode is the one `Mode` returns. */
  lemma ModeUnique<T(!new)>(s: seq<T>, m: T, le: (T, T) -> bool)
    requires TotalOrder(le) && IsMode(s, m, le)
    ensures Mode(s, le) == Some(m)
  {
    ModeIsMode(s, le);
  }

  /** Numeric order, used for hours and birth years. */
  predicate IntLe(a: int, b: int)
  {
    a <= b
  }

  lemma IntLeTotalOrder()
    ensures TotalOrder(IntLe)
  {
  }

  /** Lexicographic order on character codes, the order Python compares strings in. */
  predicate StrLe(a: string, b: string)
  {
    a == [] || (b != [] && (a[0] < b[0] || (a[0] == b[0] && StrLe(a[1..], b[1..]))))
  }

  lemma {:induction false} StrLeTotal(a: string, b: string)
    ensures StrLe(a, b) || StrLe(b, a)
  {
    if a != [] && b != [] && a[0] == b[0] {
      StrLeTotal(a[1..], b[1..]);
    }
  }

  lemma {:induction false} StrLeAntisymmetric(a: string, b: string)
    requires StrLe(a, b) && StrLe(b, a)
    ensures a == b
  {
    if a != [] && b != [] {
      StrLeAntisymmetric(a[1..], b[1..]);
      assert a == [a[0]] + a[1..] && b == [b[0]] + b[1..];
    }
  }

  lemma {:induction false} StrLeTransitive(a: string, b: string, c: string)
    requires StrLe(a, b) && StrLe(b, c)
    ensures StrLe(a, c)
  {
    if a != [] && b != [] && c != [] && a[0] == b[0] == c[0] {
      StrLeTransitive(a[1..], b[1..], c[1..]);
    }
  }

  lemma StrLeTotalOrder()
    ensures TotalOrder(StrLe)
  {
    forall a, b ensures StrLe(a, b) || StrLe(b, a) {
      StrLeTotal(a, b);
    }
    forall a, b | StrLe(a, b) && StrLe(b, a) ensures a == b {
      StrLeAntisymmetric(a, b);
    }
    forall a, b, c | StrLe(a, b) && StrLe(b, c) ensures StrLe(a, c) {
      StrLeTransitive(a, b, c);
    }
  }

  /** Ties go to the smallest value: in [3, 1, 1, 3] both values occur twice and 1 wins. */
  lemma TieGoesToSmallest()
    ensures Mode([3, 1, 1, 3], IntLe) == Some(1)
  {
    var s := [3, 1, 1, 3];
    assert Occurrences(s, 1) == 2 && Occurrences(s, 3) == 2;
    assert forall y :: y in s ==> y == 1 || y == 3;
    IntLeTotalOrder();
    ModeUnique(s, 1, IntLe);
  }
}
