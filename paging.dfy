/** The raw-row viewer: the rows are shown five at a time, for as long as the rider
    answers "yes" to the prompt before each page. */
module Paging {
  import opened Trips


  function MinNat(a: nat, b: nat): nat
  {
    if a <= b then a else b
  }

  /** Python's slice `s[i:j]` for 0 <= i <= j: bounds beyond the end are clamped. */
  function Slice<T>(s: seq<T>, i: nat, j: nat): (r: seq<T>)
    requires i <= j
  {
    s[MinNat(i, |s|)..MinNat(j, |s|)]
  }

  /** The pages laid end to end. */
  function Concat<T>(pages: seq<seq<T>>): seq<T>
  {
    if pages == [] then [] else Concat(pages[..|pages| - 1]) + pages[|pages| - 1]
  }

  /** Number of pages needed for `n` rows. */
  function PageCount(n: nat): nat
  {
    (n + 4) / 5
  }

  /** How many answers, from the first on, are exactly "yes". */
  function LeadingYes(answers: seq<string>): (n: nat)
    ensures n <= |answers|
    ensures forall k :: 0 <= k < n ==> answers[k] == "yes"
    ensures n < |answers| ==> answers[n] != "yes"
  {
    if answers == [] || answers[0] != "yes" then 0 else 1 + LeadingYes(answers[1..])
  }

  /** The pages the viewer prints, given the answers typed at its prompts (input that runs
      out ends the viewer like any answer other than "yes"). One page is shown per "yes" in
      the leading run of answers, until the rows are exhausted; page k is rows [5k, 5k + 5)
      clamped to the end, so the pages shown are, in order, an initial part of the rows, and
      all of them once the rider keeps answering "yes". */
  method DisplayRawData(rows: seq<Trip>, answers: seq<string>) returns (pages: seq<seq<Trip>>)
    ensures |pages| == MinNat(LeadingYes(answers), PageCount(|rows|))
    ensures forall k :: 0 <= k < |pages| ==> pages[k] == Slice(rows, 5 * k, 5 * k + 5)
    ensures forall k :: 0 <= k < |pages| ==> 0 < |pages[k]| <= 5
    ensures Concat(pages) == rows[..MinNat(5 * |pages|, |rows|)]
    ensures LeadingYes(answers) >= PageCount(|rows|) ==> Concat(pages) == rows
  {
    var i := 0;
    pages := [];
    while i < |rows|
      invariant i == 5 * |pages|
      invariant Progress(rows, answers, pages)
      decreases |rows| - i
    {
      if |pages| >= |answers| || answers[|pages|] != "yes" {
        break;
      }
      Step(rows, answers, pages);
      pages := pages + [Slice(rows, i, i + 5)];
      i := i + 5;
    }
    Finish(rows, answers, pages);
  }

  /** What holds after the first |pages| pages were shown: each came after a "yes", each is
      its five-row slice, together they are the matching prefix of the rows, and there is a
      next page exactly when the rows go on. */
  ghost predicate Progress<T>(rows: seq<T>, answers: seq<string>, pages: seq<seq<T>>)
  {
    && |pages| <= LeadingYes(answers)
    && (5 * |pages| < |rows| ==> |pages| < PageCount(|rows|))
    && (5 * |pages| >= |rows| ==> |pages| == PageCount(|rows|))
    && (forall k :: 0 <= k < |pages| ==> pages[k] == Slice(rows, 5 * k, 5 * k + 5))
    && Concat(pages) == rows[..MinNat(5 * |pages|, |rows|)]
  }

  lemma Step<T>(rows: seq<T>, answers: seq<string>, pages: seq<seq<T>>)
    requires Progress(rows, answers, pages) && 5 * |pages| < |rows|
    requires |pages| < |answers| && answers[|pages|] == "yes"
    ensures Progress(rows, answers, pages + [Slice(rows, 5 * |pages|, 5 * |pages| + 5)])
  {
    var p := |pages|;
    var next := pages + [Slice(rows, 5 * p, 5 * p + 5)];
    NextPage(rows, pages, 5 * p);
    PageCountStep(|rows|, p);
    assert p + 1 <= LeadingYes(answers);
    forall k | 0 <= k < |next|
      ensures next[k] == Slice(rows, 5 * k, 5 * k + 5)
    {
      if k < p {
        assert next[k] == pages[k];
      }
    }
  }

  lemma Finish<T>(rows: seq<T>, answers: seq<string>, pages: seq<seq<T>>)
    requires Progress(rows, answers, pages)
    requires 5 * |pages| >= |rows| || |pages| >= |answers| || answers[|pages|] != "yes"
    ensures |pages| == MinNat(LeadingYes(answers), PageCount(|rows|))
    ensures forall k :: 0 <= k < |pages| ==> pages[k] == Slice(rows, 5 * k, 5 * k + 5)
    ensures forall k :: 0 <= k < |pages| ==> 0 < |pages[k]| <= 5
    ensures Concat(pages) == rows[..MinNat(5 * |pages|, |rows|)]
    ensures LeadingYes(answers) >= PageCount(|rows|) ==> Concat(pages) == rows
  {
    PageSizes(rows, pages);
    if LeadingYes(answers) >= PageCount(|rows|) {
      assert 5 * |pages| >= |rows|;
    }
  }

  /** Pages that are the slices starting at multiples of five inside the rows each hold
      between one and five rows. */
  lemma PageSizes<T>(rows: seq<T>, pages: seq<seq<T>>)
    requires |pages| <= PageCount(|rows|)
    requires forall k :: 0 <= k < |pages| ==> pages[k] == Slice(rows, 5 * k, 5 * k + 5)
    ensures forall k :: 0 <= k < |pages| ==> 0 < |pages[k]| <= 5
  {
    forall k | 0 <= k < |pages|
      ensures 0 < |pages[k]| <= 5
    {
      assert 5 * k < |rows|;
    }
  }

  /** Appending the page that starts at `i` extends the shown prefix by that page. */
  lemma NextPage<T>(rows: seq<T>, pages: seq<seq<T>>, i: nat)
    requires i < |rows| && Concat(pages) == rows[..i]
    ensures Concat(pages + [Slice(rows, i, i + 5)]) == rows[..MinNat(i + 5, |rows|)]
  {
    var page := Slice(rows, i, i + 5);
    assert (pages + [page])[..|pages|] == pages;
    assert rows[..i] + rows[i..MinNat(i + 5, |rows|)] == rows[..MinNat(i + 5, |rows|)];
  }

  /** Page `p` starts inside the rows exactly when fewer than `PageCount` pages precede it. */
  lemma PageCountStep(n: nat, p: nat)
    requires 5 * p < n
    ensures p < PageCount(n)
    ensures 5 * (p + 1) < n ==> p + 1 < PageCount(n)
    ensures 5 * (p + 1) >= n ==> p + 1 == PageCount(n)
  {
  }
}
