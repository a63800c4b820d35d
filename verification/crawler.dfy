/**
 The part of the crawler the scoreboard depends on: the rows of a problem's
 submission page, reduced to the submitter and verdict columns, and the
 filter that keeps only rows whose submitter looks like a student id.
 Fetching and parsing the page is outside the model: a page arrives as a
 sequence of rows, in page order.
 */
module Crawler {
  import opened StudentIds

  /** One row of a submission page: the `Submitter` and `Verdict` columns,
      both read as strings. */
  datatype SubmitRow = SubmitRow(submitter: string, verdict: string)

  /** The rows `get_submit` returns: those whose submitter starts with seven
      digits, each as often as it occurs on the page. */
  function StudentRows(page: seq<SubmitRow>): (r: seq<SubmitRow>)
    ensures forall x :: x in r <==> x in page && IsSubmitterId(x.submitter)
    ensures forall x :: multiset(r)[x] == if IsSubmitterId(x.submitter) then multiset(page)[x] else 0
    ensures |r| <= |page|
  {
    if |page| == 0 then []
    else
      var front, last := page[..|page| - 1], page[|page| - 1];
      var rest := StudentRows(front);
      var r := if IsSubmitterId(last.submitter) then rest + [last] else rest;
      KeepLast(page, rest, r);
      r
  }

  /** The inductive step of `StudentRows`: the last row of the page is kept
      exactly when its submitter passes the filter. */
  lemma KeepLast(page: seq<SubmitRow>, rest: seq<SubmitRow>, r: seq<SubmitRow>)
    requires |page| > 0
    requires forall x ::
               multiset(rest)[x] == if IsSubmitterId(x.submitter) then multiset(page[..|page| - 1])[x] else 0
    requires var last := page[|page| - 1];
      r == if IsSubmitterId(last.submitter) then rest + [last] else rest
    ensures forall x :: multiset(r)[x] == if IsSubmitterId(x.submitter) then multiset(page)[x] else 0
    ensures forall x :: x in r <==> x in page && IsSubmitterId(x.submitter)
  {
    var front, last := page[..|page| - 1], page[|page| - 1];
    assert page == front + [last];
    assert multiset(page) == multiset(front) + multiset{last};
    assert multiset(r) == multiset(rest) + if IsSubmitterId(last.submitter) then multiset{last} else multiset{};
    forall x
      ensures x in r <==> x in page && IsSubmitterId(x.submitter)
    {
      assert x in r <==> x in multiset(r);
      assert x in page <==> x in multiset(page);
    }
  }
}
