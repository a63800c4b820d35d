/**
 The scoreboard table: one row per student, one three-state cell per tracked
 problem plus a `Total` column, folded from crawled submission pages and
 finally ranked by `Total` (descending) and `Student_ID` (ascending).

 The table is an immutable value. Every write `update` makes through the row
 that `loc` returns lands in the table.
 */
module Scoreboard {
  import opened Crawler
  import Ordering

  type ProblemId = int
  type StudentId = string

  /** A cell only ever moves forward: NotAttempted, then Attempted, then AC. */
  datatype Cell = NotAttempted | Attempted | AC

  function Rank(c: Cell): nat {
    match c
    case NotAttempted => 0
    case Attempted => 1
    case AC => 2
  }

  /** A row: one cell per tracked problem and the `Total` column. */
  datatype Row = Row(cells: map<ProblemId, Cell>, total: int)

  /** The table: the tracked problems (its columns), the rows keyed by
      `Student_ID`, and the order in which the rows are listed. */
  datatype Board = Board(problems: seq<ProblemId>, rows: map<StudentId, Row>, order: seq<StudentId>)

  /** A crawled row together with the problem whose page it was read from. */
  datatype Event = Event(problem: ProblemId, sub: SubmitRow)

  function Solved(cells: map<ProblemId, Cell>): set<ProblemId> {
    set p | p in cells && cells[p] == AC
  }

  /** `Total` counts the solved cells of the row. */
  predicate RowConsistent(row: Row) {
    row.total == |Solved(row.cells)|
  }

  ghost predicate HasColumns(row: Row, problems: seq<ProblemId>) {
    forall p :: p in row.cells <==> p in problems
  }

  /** Every row has exactly the tracked columns and a consistent `Total`. */
  ghost predicate RowsFormed(b: Board) {
    forall s :: s in b.rows ==> HasColumns(b.rows[s], b.problems) && RowConsistent(b.rows[s])
  }

  /** The listing order names each row exactly once. */
  ghost predicate Listed(b: Board) {
    forall s :: multiset(b.order)[s] == if s in b.rows then 1 else 0
  }

  ghost predicate WellFormed(b: Board) {
    RowsFormed(b) && Listed(b)
  }

  /** The cell of student `s` for problem `p`; a student without a row reads
      as NotAttempted everywhere, which is what a fresh row holds. */
  function CellOf(b: Board, s: StudentId, p: ProblemId): Cell {
    if s in b.rows && p in b.rows[s].cells then b.rows[s].cells[p] else NotAttempted
  }

  function TotalOf(rows: map<StudentId, Row>, s: StudentId): int {
    if s in rows then rows[s].total else 0
  }

  /** The table built by the constructor: the tracked columns and no rows. */
  function Empty(problems: seq<ProblemId>): (b: Board)
    ensures WellFormed(b)
    ensures b.problems == problems && b.rows == map[] && b.order == []
  {
    Board(problems, map[], [])
  }

  /** The row given to a student seen for the first time. */
  function FreshRow(problems: seq<ProblemId>): (r: Row)
    ensures HasColumns(r, problems) && RowConsistent(r)
    ensures forall p :: p in r.cells ==> r.cells[p] == NotAttempted
    ensures r.total == 0
  {
    var cells := map p | p in problems :: NotAttempted;
    assert Solved(cells) == {};
    Row(cells, 0)
  }

  /** The transition of one cell under one crawled verdict. */
  function NextCell(c: Cell, verdict: string): (r: Cell)
    ensures Rank(c) <= Rank(r)
    ensures r != NotAttempted
    ensures r == AC <==> c == AC || verdict == "AC"
  {
    if verdict == "AC" then AC
    else if c == NotAttempted then Attempted
    else c
  }

  /** One verdict applied to a row: the cell moves forward and `Total` is
      bumped exactly when the cell becomes AC for the first time. */
  function ApplyToRow(row: Row, p: ProblemId, verdict: string): (r: Row)
    requires p in row.cells
    ensures r.cells == row.cells[p := NextCell(row.cells[p], verdict)]
    ensures r.total == row.total + if verdict == "AC" && row.cells[p] != AC then 1 else 0
    ensures RowConsistent(row) ==> RowConsistent(r)
  {
    if verdict == "AC" then
      if row.cells[p] != AC then
        assert Solved(row.cells[p := AC]) == Solved(row.cells) + {p};
        Row(row.cells[p := AC], row.total + 1)
      else
        assert row.cells[p := AC] == row.cells;
        row
    else if row.cells[p] == NotAttempted then
      assert Solved(row.cells[p := Attempted]) == Solved(row.cells);
      Row(row.cells[p := Attempted], row.total)
    else
      assert row.cells[p := row.cells[p]] == row.cells;
      row
  }

  /** One crawled row folded into the table. A new submitter first gets a
      fresh row appended at the end of the listing. Only the submitter's row
      changes, and in it only the event's cell and `Total`. */
  function Apply(b: Board, e: Event): (r: Board)
    requires RowsFormed(b) && e.problem in b.problems
    ensures RowsFormed(r) && r.problems == b.problems
    ensures Listed(b) ==> Listed(r)
    ensures r.rows.Keys == b.rows.Keys + {e.sub.submitter}
    ensures r.order == if e.sub.submitter in b.rows then b.order else b.order + [e.sub.submitter]
    ensures forall s :: s in b.rows && s != e.sub.submitter ==> r.rows[s] == b.rows[s]
    ensures forall q :: q != e.problem ==> CellOf(r, e.sub.submitter, q) == CellOf(b, e.sub.submitter, q)
    ensures CellOf(r, e.sub.submitter, e.problem) == NextCell(CellOf(b, e.sub.submitter, e.problem), e.sub.verdict)
    ensures r.rows[e.sub.submitter].total == TotalOf(b.rows, e.sub.submitter)
      + if e.sub.verdict == "AC" && CellOf(b, e.sub.submitter, e.problem) != AC then 1 else 0
  {
    var s := e.sub.submitter;
    var row := if s in b.rows then b.rows[s] else FreshRow(b.problems);
    var row' := ApplyToRow(row, e.problem, e.sub.verdict);
    var order := if s in b.rows then b.order else b.order + [s];
    assert HasColumns(row', b.problems) && RowConsistent(row');
    ListedOnce(b, s, row');
    var r := Board(b.problems, b.rows[s := row'], order);
    assert forall t :: t in r.rows ==> HasColumns(r.rows[t], r.problems) && RowConsistent(r.rows[t]);
    r
  }

  /** Keeping or appending `s` keeps every row listed exactly once. */
  lemma ListedOnce(b: Board, s: StudentId, row: Row)
    ensures Listed(b) ==> Listed(Board(b.problems, b.rows[s := row], if s in b.rows then b.order else b.order + [s]))
  {
    if s !in b.rows {
      assert multiset(b.order + [s]) == multiset(b.order) + multiset{s};
    }
  }

  /** The crawled rows folded one after another, in the given order. */
  function FoldEvents(b: Board, es: seq<Event>): (r: Board)
    requires RowsFormed(b)
    requires forall e :: e in es ==> e.problem in b.problems
    ensures RowsFormed(r) && r.problems == b.problems
    ensures Listed(b) ==> Listed(r)
    decreases |es|
  {
    if |es| == 0 then b
    else Apply(FoldEvents(b, es[..|es| - 1]), es[|es| - 1])
  }

  /** Whether `s` has a row among `es` for problem `q`. */
  predicate Submitted(es: seq<Event>, s: StudentId, q: ProblemId) {
    exists e :: e in es && e.problem == q && e.sub.submitter == s
  }

  /** Whether `s` has an AC row among `es` for problem `q`. */
  predicate Accepted(es: seq<Event>, s: StudentId, q: ProblemId) {
    exists e :: e in es && e.problem == q && e.sub.submitter == s && e.sub.verdict == "AC"
  }

  /** What a cell should read, given its earlier value and what was seen:
      AC when it was AC or some verdict was AC; otherwise Attempted when it
      was Attempted or anything was submitted; otherwise NotAttempted. */
  function Outcome(before: Cell, submitted: bool, accepted: bool): Cell {
    if before == AC || accepted then AC
    else if before == Attempted || submitted then Attempted
    else NotAttempted
  }

  /** Folding any sequence of crawled rows gives every cell the value
      `Outcome` predicts, whatever the order of the rows. */
  lemma {:induction false} FoldEventsOutcome(b: Board, es: seq<Event>)
    requires RowsFormed(b)
    requires forall e :: e in es ==> e.problem in b.problems
    ensures forall s, q ::
              CellOf(FoldEvents(b, es), s, q) == Outcome(CellOf(b, s, q), Submitted(es, s, q), Accepted(es, s, q))
    decreases |es|
  {
    if |es| > 0 {
      var front := es[..|es| - 1];
      assert forall x :: x in front ==> x in es;
      FoldEventsOutcome(b, front);
      forall s, q
        ensures CellOf(FoldEvents(b, es), s, q) == Outcome(CellOf(b, s, q), Submitted(es, s, q), Accepted(es, s, q))
      {
        OutcomeStep(FoldEvents(b, front), es, CellOf(b, s, q), s, q);
      }
    }
  }

  /** A fold adds a row for exactly the submitters it saw. */
  lemma {:induction false} FoldEventsKeys(b: Board, es: seq<Event>)
    requires RowsFormed(b)
    requires forall e :: e in es ==> e.problem in b.problems
    ensures FoldEvents(b, es).rows.Keys == b.rows.Keys + Submitters(es)
    decreases |es|
  {
    if |es| > 0 {
      var front := es[..|es| - 1];
      assert forall x :: x in front ==> x in es;
      FoldEventsKeys(b, front);
    }
  }

  /** The submitters of a sequence of crawled rows. */
  function Submitters(es: seq<Event>): (r: set<StudentId>)
    ensures forall s :: s in r <==> exists e :: e in es && e.sub.submitter == s
    decreases |es|
  {
    if |es| == 0 then {}
    else
      var front, last := es[..|es| - 1], es[|es| - 1];
      assert es == front + [last];
      Submitters(front) + {last.sub.submitter}
  }

  /** What a sequence of crawled rows saw is what its front saw plus its
      last row. */
  lemma SeenLast(es: seq<Event>)
    requires |es| > 0
    ensures var front, e := es[..|es| - 1], es[|es| - 1];
      && (forall s, q :: Submitted(es, s, q) <==>
            Submitted(front, s, q) || (e.problem == q && e.sub.submitter == s))
      && (forall s, q :: Accepted(es, s, q) <==>
            Accepted(front, s, q) || (e.problem == q && e.sub.submitter == s && e.sub.verdict == "AC"))
  {
    var front, e := es[..|es| - 1], es[|es| - 1];
    assert es == front + [e];
    assert forall x :: x in es <==> x in front || x == e;
  }

  /** The inductive step of `FoldEventsOutcome` for a single cell: `mid` is
      the fold of all but the last crawled row. */
  lemma OutcomeStep(mid: Board, es: seq<Event>, c0: Cell, s: StudentId, q: ProblemId)
    requires |es| > 0 && RowsFormed(mid) && es[|es| - 1].problem in mid.problems
    requires CellOf(mid, s, q) == Outcome(c0, Submitted(es[..|es| - 1], s, q), Accepted(es[..|es| - 1], s, q))
    ensures CellOf(Apply(mid, es[|es| - 1]), s, q) == Outcome(c0, Submitted(es, s, q), Accepted(es, s, q))
  {
    SeenLast(es);
    var e := es[|es| - 1];
    var r := Apply(mid, e);
    if s == e.sub.submitter && q == e.problem {
      assert CellOf(r, s, q) == NextCell(CellOf(mid, s, q), e.sub.verdict);
    } else if s == e.sub.submitter {
      assert CellOf(r, s, q) == CellOf(mid, s, q);
    } else {
      assert s in r.rows <==> s in mid.rows;
      assert CellOf(r, s, q) == CellOf(mid, s, q);
    }
  }

  /** Two folds that saw the same crawled rows, in any order, give the same
      rows: each cell depends only on what was seen, and `Total` only on the
      cells. */
  lemma FoldOrderIrrelevant(b: Board, es: seq<Event>, es': seq<Event>)
    requires RowsFormed(b)
    requires forall e :: e in es ==> e.problem in b.problems
    requires forall e :: e in es' ==> e.problem in b.problems
    requires multiset(es) == multiset(es')
    ensures FoldEvents(b, es).rows == FoldEvents(b, es').rows
  {
    SameElements(es, es');
    SameSeen(es, es');
    FoldEventsKeys(b, es);
    FoldEventsKeys(b, es');
    FoldEventsOutcome(b, es);
    FoldEventsOutcome(b, es');
    SameCellsSameRows(FoldEvents(b, es), FoldEvents(b, es'));
  }

  lemma SameElements(es: seq<Event>, es': seq<Event>)
    requires multiset(es) == multiset(es')
    ensures forall e :: e in es <==> e in es'
  {
    forall e
      ensures e in es <==> e in es'
    {
      assert e in es <==> e in multiset(es);
      assert e in es' <==> e in multiset(es');
    }
  }

  /** Sequences with the same elements saw the same things. */
  lemma SameSeen(es: seq<Event>, es': seq<Event>)
    requires forall e :: e in es <==> e in es'
    ensures Submitters(es) == Submitters(es')
    ensures forall s, q :: Submitted(es, s, q) == Submitted(es', s, q)
    ensures forall s, q :: Accepted(es, s, q) == Accepted(es', s, q)
  {
  }

  /** Two well-formed tables with the same columns, the same students and
      the same cells have the same rows: `Total` follows from the cells. */
  lemma SameCellsSameRows(r: Board, r': Board)
    requires RowsFormed(r) && RowsFormed(r') && r.problems == r'.problems
    requires r.rows.Keys == r'.rows.Keys
    requires forall s, q :: CellOf(r, s, q) == CellOf(r', s, q)
    ensures r.rows == r'.rows
  {
    forall s | s in r.rows
      ensures r.rows[s] == r'.rows[s]
    {
      assert s in r'.rows.Keys;
      var row, row' := r.rows[s], r'.rows[s];
      assert HasColumns(row, r.problems) && HasColumns(row', r.problems);
      assert forall q :: q in row.cells <==> q in row'.cells;
      forall q | q in r.rows[s].cells
        ensures r.rows[s].cells[q] == r'.rows[s].cells[q]
      {
        assert CellOf(r, s, q) == CellOf(r', s, q);
      }
      assert r.rows[s].cells.Keys == r'.rows[s].cells.Keys;
      assert r.rows[s].cells == r'.rows[s].cells;
    }
  }

  /** A student's number of solved problems never exceeds the number of
      tracked problems. */
  lemma TotalBounded(b: Board, s: StudentId)
    requires RowsFormed(b) && s in b.rows
    ensures 0 <= b.rows[s].total <= |b.rows[s].cells| <= |b.problems|
  {
    var row := b.rows[s];
    assert HasColumns(row, b.problems);
    var solved := Solved(row.cells);
    assert row.cells.Keys == solved + (row.cells.Keys - solved);
    assert |row.cells.Keys| == |solved| + |row.cells.Keys - solved|;
    ElementsBounded(b.problems);
    assert forall p :: p in row.cells.Keys <==> p in (set p | p in b.problems);
    assert row.cells.Keys == set p | p in b.problems;
    assert |row.cells| == |row.cells.Keys|;
  }

  lemma {:induction false} ElementsBounded<T>(xs: seq<T>)
    ensures |set x | x in xs| <= |xs|
  {
    if |xs| > 0 {
      ElementsBounded(xs[1..]);
      assert (set x | x in xs) == {xs[0]} + set x | x in xs[1..];
    }
  }

  // ---------------------------------------------------------------------
  // Ranking
  // ---------------------------------------------------------------------

  /** `s` is listed before `t`: more solved problems first, and among equal
      totals the smaller `Student_ID` first. */
  predicate Precedes(rows: map<StudentId, Row>, s: StudentId, t: StudentId) {
    TotalOf(rows, s) > TotalOf(rows, t)
    || (TotalOf(rows, s) == TotalOf(rows, t) && Ordering.Less(s, t))
  }

  lemma PrecedesTransitive(rows: map<StudentId, Row>, a: StudentId, b: StudentId, c: StudentId)
    requires Precedes(rows, a, b) && Precedes(rows, b, c)
    ensures Precedes(rows, a, c)
  {
    if TotalOf(rows, a) == TotalOf(rows, b) == TotalOf(rows, c) {
      Ordering.LessTransitive(a, b, c);
    }
  }

  lemma PrecedesTotal(rows: map<StudentId, Row>, a: StudentId, b: StudentId)
    requires a != b
    ensures Precedes(rows, a, b) || Precedes(rows, b, a)
  {
    Ordering.LessTotal(a, b);
  }

  predicate Ranked(rows: map<StudentId, Row>, order: seq<StudentId>) {
    forall i, j :: 0 <= i < j < |order| ==> Precedes(rows, order[i], order[j])
  }

  /** A listing stays ranked when an id that precedes all of it is put in
      front. */
  lemma RankedCons(rows: map<StudentId, Row>, x: StudentId, order: seq<StudentId>)
    requires Ranked(rows, order)
    requires forall y :: y in order ==> Precedes(rows, x, y)
    ensures Ranked(rows, [x] + order)
  {
    forall i, j | 0 <= i < j < |[x] + order|
      ensures Precedes(rows, ([x] + order)[i], ([x] + order)[j])
    {
      assert ([x] + order)[j] == order[j - 1];
      if i > 0 {
        assert ([x] + order)[i] == order[i - 1];
      }
    }
  }

  /** Puts `x` into a ranked listing that does not contain it yet. */
  function Insert(rows: map<StudentId, Row>, x: StudentId, order: seq<StudentId>): (r: seq<StudentId>)
    requires Ranked(rows, order) && x !in order
    ensures Ranked(rows, r)
    ensures multiset(r) == multiset(order) + multiset{x}
  {
    if |order| == 0 then [x]
    else
      var head, tail := order[0], order[1..];
      assert order == [head] + tail;
      if Precedes(rows, x, head) then
        PrecedesAll(rows, x, order);
        RankedCons(rows, x, order);
        [x] + order
      else
        PrecedesTotal(rows, x, head);
        RankedTail(rows, order);
        var rest := Insert(rows, x, tail);
        HeadPrecedesInsert(rows, x, order, rest);
        RankedCons(rows, head, rest);
        [head] + rest
  }

  /** An id that precedes the head of a ranking precedes all of it. */
  lemma PrecedesAll(rows: map<StudentId, Row>, x: StudentId, order: seq<StudentId>)
    requires Ranked(rows, order) && |order| > 0 && Precedes(rows, x, order[0])
    ensures forall y :: y in order ==> Precedes(rows, x, y)
  {
    forall y | y in order
      ensures Precedes(rows, x, y)
    {
      if y != order[0] {
        var j :| 0 < j < |order| && order[j] == y;
        PrecedesTransitive(rows, x, order[0], y);
      }
    }
  }

  /** The head of a ranking precedes `x` inserted into its tail, when it
      precedes `x` itself. */
  lemma HeadPrecedesInsert(rows: map<StudentId, Row>, x: StudentId, order: seq<StudentId>, rest: seq<StudentId>)
    requires Ranked(rows, order) && |order| > 0 && Precedes(rows, order[0], x)
    requires multiset(rest) == multiset(order[1..]) + multiset{x}
    ensures forall y :: y in rest ==> Precedes(rows, order[0], y)
  {
    forall y | y in rest
      ensures Precedes(rows, order[0], y)
    {
      assert y in multiset(rest);
      if y != x {
        assert y in multiset(order[1..]);
        var j :| 0 <= j < |order[1..]| && order[1..][j] == y;
        assert order[j + 1] == y;
      }
    }
  }

  /** Insertion sort of a listing without repeated ids. */
  function RankOrder(rows: map<StudentId, Row>, order: seq<StudentId>): (r: seq<StudentId>)
    requires forall s :: multiset(order)[s] <= 1
    ensures Ranked(rows, r)
    ensures multiset(r) == multiset(order)
  {
    if |order| == 0 then []
    else
      assert order == [order[0]] + order[1..];
      assert multiset(order) == multiset{order[0]} + multiset(order[1..]);
      assert forall s :: multiset(order[1..])[s] <= 1 by {
        forall s
          ensures multiset(order[1..])[s] <= 1
        {
          assert multiset(order)[s] == multiset{order[0]}[s] + multiset(order[1..])[s];
        }
      }
      assert multiset(order[1..])[order[0]] == 0 by {
        assert multiset(order)[order[0]] == 1 + multiset(order[1..])[order[0]];
      }
      var rest := RankOrder(rows, order[1..]);
      assert order[0] !in multiset(rest);
      Insert(rows, order[0], rest)
  }

  /** The final `sort_values`: the rows are untouched and listed by `Total`
      descending, then `Student_ID` ascending. */
  function Sort(b: Board): (r: Board)
    requires WellFormed(b)
    ensures WellFormed(r) && Ranked(r.rows, r.order)
    ensures r.problems == b.problems && r.rows == b.rows
    ensures multiset(r.order) == multiset(b.order)
  {
    Board(b.problems, b.rows, RankOrder(b.rows, b.order))
  }

  /** The rows of a ranked listing appear in a single possible order: once
      the rows are known, the listing is determined. */
  lemma {:induction false} RankedUnique(rows: map<StudentId, Row>, o1: seq<StudentId>, o2: seq<StudentId>)
    requires Ranked(rows, o1) && Ranked(rows, o2)
    requires multiset(o1) == multiset(o2)
    ensures o1 == o2
    decreases |o1|
  {
    if |o1| > 0 {
      RankedHead(rows, o1, o2);
      RankedTail(rows, o1);
      RankedTail(rows, o2);
      RankedUnique(rows, o1[1..], o2[1..]);
    }
  }

  /** Two rankings of the same ids start with the same id. */
  lemma RankedHead(rows: map<StudentId, Row>, o1: seq<StudentId>, o2: seq<StudentId>)
    requires Ranked(rows, o1) && Ranked(rows, o2)
    requires multiset(o1) == multiset(o2) && |o1| > 0
    ensures |o2| > 0 && o1[0] == o2[0]
  {
    assert |o2| == |multiset(o2)| == |o1|;
    if o1[0] != o2[0] {
      assert o1[0] in multiset(o2);
      assert o2[0] in multiset(o1);
      var i :| 0 <= i < |o2| && o2[i] == o1[0];
      var j :| 0 <= j < |o1| && o1[j] == o2[0];
      assert Precedes(rows, o2[0], o1[0]);
      assert Precedes(rows, o1[0], o2[0]);
      PrecedesTransitive(rows, o1[0], o2[0], o1[0]);
      Ordering.LessIrreflexive(o1[0]);
      assert false;
    }
  }

  /** Dropping the first id of a ranking leaves a ranking of the rest. */
  lemma RankedTail(rows: map<StudentId, Row>, o: seq<StudentId>)
    requires Ranked(rows, o) && |o| > 0
    ensures Ranked(rows, o[1..])
    ensures multiset(o[1..]) == multiset(o) - multiset{o[0]}
  {
    assert o == [o[0]] + o[1..];
    forall i, j | 0 <= i < j < |o| - 1
      ensures Precedes(rows, o[1..][i], o[1..][j])
    {
      assert o[1..][i] == o[i + 1] && o[1..][j] == o[j + 1];
    }
  }

  // ---------------------------------------------------------------------
  // The whole update
  // ---------------------------------------------------------------------

  /** The crawled rows tagged with their problem, page after page in the
      order of the tracked problems. `pages[i]` is the raw page fetched for
      `problems[i]`; only rows passing the submitter filter take part. */
  function Events(problems: seq<ProblemId>, pages: seq<seq<SubmitRow>>): (es: seq<Event>)
    requires |pages| == |problems|
    ensures forall e :: e in es <==> Crawled(problems, pages, e)
    decreases |problems|
  {
    if |problems| == 0 then []
    else
      var n := |problems| - 1;
      var front := Events(problems[..n], pages[..n]);
      var tagged := Tag(problems[n], StudentRows(pages[n]));
      CrawledLast(problems, pages);
      front + tagged
  }

  /** The rows of one filtered page, tagged with its problem. */
  function Tag(p: ProblemId, page: seq<SubmitRow>): (es: seq<Event>)
    ensures forall e :: e in es <==> e.problem == p && e.sub in page
  {
    var es := seq(|page|, i requires 0 <= i < |page| => Event(p, page[i]));
    assert forall e: Event | e.problem == p && e.sub in page :: e in es by {
      forall e: Event | e.problem == p && e.sub in page
        ensures e in es
      {
        var i :| 0 <= i < |page| && page[i] == e.sub;
        assert es[i] == e;
      }
    }
    es
  }

  /** A row crawled from the tracked problems is one crawled from all but
      the last of them, or one from the last page. */
  lemma CrawledLast(problems: seq<ProblemId>, pages: seq<seq<SubmitRow>>)
    requires |pages| == |problems| > 0
    ensures var n := |problems| - 1;
      forall e :: Crawled(problems, pages, e) <==>
        Crawled(problems[..n], pages[..n], e)
        || (e.problem == problems[n] && e.sub in pages[n] && StudentIds.IsSubmitterId(e.sub.submitter))
  {
    var n := |problems| - 1;
    forall e
      ensures Crawled(problems, pages, e) <==>
        Crawled(problems[..n], pages[..n], e)
        || (e.problem == problems[n] && e.sub in pages[n] && StudentIds.IsSubmitterId(e.sub.submitter))
    {
      if Crawled(problems, pages, e) {
        var i :| CrawledAt(problems, pages, e, i);
        if i < n {
          assert CrawledAt(problems[..n], pages[..n], e, i);
        }
      }
      if Crawled(problems[..n], pages[..n], e) {
        var i :| CrawledAt(problems[..n], pages[..n], e, i);
        assert CrawledAt(problems, pages, e, i);
      }
      if e.problem == problems[n] && e.sub in pages[n] && StudentIds.IsSubmitterId(e.sub.submitter) {
        assert CrawledAt(problems, pages, e, n);
      }
    }
  }

  /** The crawled row `e.sub` sits on page `i`, the page of `e.problem`, and
      passes the submitter filter. */
  ghost predicate CrawledAt(problems: seq<ProblemId>, pages: seq<seq<SubmitRow>>, e: Event, i: int)
    requires |pages| == |problems|
  {
    0 <= i < |problems| && problems[i] == e.problem && e.sub in pages[i]
    && StudentIds.IsSubmitterId(e.sub.submitter)
  }

  ghost predicate Crawled(problems: seq<ProblemId>, pages: seq<seq<SubmitRow>>, e: Event)
    requires |pages| == |problems|
  {
    exists i :: CrawledAt(problems, pages, e, i)
  }

  /** `Scoreboard.update`: fold every crawled page into the table, then rank
      the rows. */
  function Update(b: Board, pages: seq<seq<SubmitRow>>): (r: Board)
    requires WellFormed(b) && |pages| == |b.problems|
    ensures WellFormed(r) && r.problems == b.problems
    ensures Ranked(r.rows, r.order)
    ensures r.rows.Keys == b.rows.Keys + Submitters(Events(b.problems, pages))
    ensures forall s, q ::
              CellOf(r, s, q) == Outcome(CellOf(b, s, q),
                                         Submitted(Events(b.problems, pages), s, q),
                                         Accepted(Events(b.problems, pages), s, q))
  {
    var es := Events(b.problems, pages);
    FoldEventsKeys(b, es);
    FoldEventsOutcome(b, es);
    Sort(FoldEvents(b, es))
  }

  /** Some row that passes the submitter filter, on a page fetched for
      problem `q`, was submitted by `s`. */
  ghost predicate SubmittedOnPages(problems: seq<ProblemId>, pages: seq<seq<SubmitRow>>, s: StudentId, q: ProblemId)
    requires |pages| == |problems|
  {
    exists i, x :: 0 <= i < |pages| && problems[i] == q && x in pages[i]
      && StudentIds.IsSubmitterId(s) && x.submitter == s
  }

  /** As `SubmittedOnPages`, for a row whose verdict is "AC". */
  ghost predicate AcceptedOnPages(problems: seq<ProblemId>, pages: seq<seq<SubmitRow>>, s: StudentId, q: ProblemId)
    requires |pages| == |problems|
  {
    exists i, x :: 0 <= i < |pages| && problems[i] == q && x in pages[i]
      && StudentIds.IsSubmitterId(s) && x.submitter == s && x.verdict == "AC"
  }

  lemma SubmittedOnPagesIff(problems: seq<ProblemId>, pages: seq<seq<SubmitRow>>, s: StudentId, q: ProblemId)
    requires |pages| == |problems|
    ensures Submitted(Events(problems, pages), s, q) <==> SubmittedOnPages(problems, pages, s, q)
  {
    var es := Events(problems, pages);
    if Submitted(es, s, q) {
      var e :| e in es && e.problem == q && e.sub.submitter == s;
      var i :| CrawledAt(problems, pages, e, i);
    }
    if SubmittedOnPages(problems, pages, s, q) {
      var i, x :| 0 <= i < |pages| && problems[i] == q && x in pages[i]
        && StudentIds.IsSubmitterId(s) && x.submitter == s;
      assert CrawledAt(problems, pages, Event(q, x), i);
    }
  }

  lemma AcceptedOnPagesIff(problems: seq<ProblemId>, pages: seq<seq<SubmitRow>>, s: StudentId, q: ProblemId)
    requires |pages| == |problems|
    ensures Accepted(Events(problems, pages), s, q) <==> AcceptedOnPages(problems, pages, s, q)
  {
    var es := Events(problems, pages);
    if Accepted(es, s, q) {
      var e :| e in es && e.problem == q && e.sub.submitter == s && e.sub.verdict == "AC";
      var i :| CrawledAt(problems, pages, e, i);
    }
    if AcceptedOnPages(problems, pages, s, q) {
      var i, x :| 0 <= i < |pages| && problems[i] == q && x in pages[i]
        && StudentIds.IsSubmitterId(s) && x.submitter == s && x.verdict == "AC";
      assert CrawledAt(problems, pages, Event(q, x), i);
    }
  }

  /** After an update, a cell reads AC exactly when it already did or a
      filtered row of that problem's page by that student says "AC"; it
      reads NotAttempted exactly when it already did and no filtered row of
      that problem's page is by that student; otherwise it reads Attempted. */
  lemma UpdateCells(b: Board, pages: seq<seq<SubmitRow>>, s: StudentId, q: ProblemId)
    requires WellFormed(b) && |pages| == |b.problems|
    ensures CellOf(Update(b, pages), s, q) == AC <==>
      CellOf(b, s, q) == AC || AcceptedOnPages(b.problems, pages, s, q)
    ensures CellOf(Update(b, pages), s, q) == NotAttempted <==>
      CellOf(b, s, q) == NotAttempted && !SubmittedOnPages(b.problems, pages, s, q)
  {
    var es := Events(b.problems, pages);
    var submitted, accepted := Submitted(es, s, q), Accepted(es, s, q);
    assert CellOf(Update(b, pages), s, q) == Outcome(CellOf(b, s, q), submitted, accepted);
    SubmittedOnPagesIff(b.problems, pages, s, q);
    AcceptedOnPagesIff(b.problems, pages, s, q);
    assert accepted ==> submitted;
  }
}
