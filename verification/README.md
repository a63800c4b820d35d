# Scoreboard core, modelled in Dafny

The system builds a class scoreboard from an online judge. Two parts do the
real work:

- `Scoreboard.update` (in `scoreboard.py`) takes the crawled submission page
  of each tracked problem and keeps only the rows whose submitter starts with
  seven digits. It folds those rows into a table with one row per student.
  Each row has a three-state cell per problem ("Not Attempted", "Attempted",
  "AC") and a `Total` column. The rows are then sorted by `Total` descending
  and `Student_ID` ascending.
- `Online_Judge.get_submission` (in `online_judge.py`) takes the
  submissions the judge API returns for one problem, newest first. It
  reverses them and keeps only judged verdicts (codes 4 to 10). It maps each
  judge user id to a student name with the dictionary built by `get_user`,
  which keeps only names starting with `0` and six digits. Submissions by
  unknown users are skipped. For each student it records the best verdict
  and a penalty: the number of counted submissions up to and including the
  first accepted one (verdict 10).

The Dafny project has five modules:

- `StudentIds` (`student_ids.dfy`): the two anchored regular expressions
  `(\d){7}` and `0(\d){6}`, with the `re.match` semantics. A pattern must
  match a prefix, and anything may follow it.
- `Ordering` (`ordering.dfy`): Python's `str` ordering, used for the
  `Student_ID` tie break. It is proved irreflexive, transitive and total.
- `Crawler` (`crawler.dfy`): a crawled page row (submitter, verdict) and the
  filter `get_submit` applies before returning.
- `Scoreboard` (`scoreboard.dfy`): the table as an immutable value. It
  covers:
  - the cell transition and the row update;
  - the fold over the crawled rows of every tracked problem;
  - the final ranking;
  - a declarative description of each cell after an update.
- `OnlineJudge` (`online_judge.dfy`): the user map and the verdict/penalty
  fold, with a declarative description in terms of each student's history
  of counted verdicts.

Page fetching, HTTP requests and JSON decoding are not modelled. The crawled
pages, the decoded user list and the decoded submission list are parameters,
in the order the source receives them.

The table keeps the rows in a map from `Student_ID` to row. It also keeps a
separate listing order, which is what `sort_values` rearranges. A new student
is appended at the end, as a DataFrame `loc` assignment does.

`update` has no incremental mode: each call crawls every tracked problem's
page and folds it in full, and the model does the same.

## Model

| member | source | states |
|---|---|---|
| Scoreboard.Empty | scoreboard.py:37-38 | The constructor's table has the tracked problems as columns, no rows and an empty listing, and it is well formed. |
| Scoreboard.FreshRow | scoreboard.py:54-59 | A student seen for the first time gets one cell per tracked problem. Every cell is NotAttempted, `Total` is 0, and `Total` equals the number of AC cells. |
| Scoreboard.NextCell | scoreboard.py:60-66 | A verdict never moves a cell backwards, and it always leaves the cell attempted. The new cell is AC exactly when the old cell was AC or the verdict is "AC". |
| Scoreboard.ApplyToRow | scoreboard.py:60-66 | Only the given problem's cell changes, and it takes the transition value. `Total` rises by one exactly when the verdict is "AC" and the cell was not AC. The row invariant "`Total` = number of AC cells" is preserved. |
| Scoreboard.Apply | scoreboard.py:51-66 | Processing one crawled row adds the submitter's row if it is new. A new submitter is appended to the listing; the listing is otherwise unchanged. Every other student's row is unchanged, and so are the submitter's cells for other problems. The submitter's cell for this problem takes the transition, and `Total` rises exactly on a first AC. Every row keeps its columns and its `Total` invariant, and each row is still listed once. |
| Scoreboard.FoldEvents | scoreboard.py:49-66 | After any number of crawled rows, every row still has exactly the tracked columns and `Total` equal to its number of AC cells. Each row is still listed exactly once. |
| Scoreboard.FoldEventsOutcome | scoreboard.py:51-66 | After folding any sequence of crawled rows, each cell has a definite value. It is AC if it was AC before or some row by that student for that problem said "AC". Otherwise it is Attempted if it was Attempted or such a row exists. Otherwise it is NotAttempted. |
| Scoreboard.FoldEventsKeys | scoreboard.py:54-59 | After a fold, the students with a row are the earlier ones plus exactly the submitters of the folded rows. |
| Scoreboard.FoldOrderIrrelevant | scoreboard.py:51-66 | Folding the same crawled rows in any other order gives the same rows. |
| Scoreboard.TotalBounded | scoreboard.py:57-63 | In a well-formed table, a student's `Total` lies between 0 and the number of tracked problems. |
| Scoreboard.Insert | scoreboard.py:68-69 | Inserting an id into a ranked listing keeps it ranked and adds exactly that id. |
| Scoreboard.RankOrder | scoreboard.py:68-69 | The sort returns a permutation of the listing. In the result, higher `Total` comes first and equal totals are in ascending `Student_ID` order. |
| Scoreboard.Sort | scoreboard.py:68-69 | The final sort leaves the problems and every row unchanged. It permutes the listing into ranked order, and the table stays well formed. |
| Scoreboard.RankedUnique | scoreboard.py:68-69 | Two ranked listings of the same students are equal, so the order after an update is fully determined by the rows. |
| Scoreboard.Events | scoreboard.py:49-53 | The rows processed during an update are exactly the filtered rows of each tracked problem's page, each tagged with that problem. |
| Scoreboard.Update | scoreboard.py:44-69 | The whole update leaves a well-formed, ranked table with the same problems. It adds a row for exactly the new filtered submitters. Every cell takes the value determined by its old value and by whether that student had any row, or an "AC" row, for that problem. |
| Scoreboard.UpdateCells | scoreboard.py:49-66 | After an update, a cell is AC if and only if it was AC or the problem's page has an "AC" row by that student whose submitter passes the filter. It is NotAttempted if and only if it was NotAttempted and the page has no such row at all. |
| Crawler.StudentRows | scoreboard.py:151 | `get_submit` returns a row if and only if it is on the page and its submitter passes the seven-digit filter. Each kept row appears as many times as on the page, and no other rows appear. |
| StudentIds.MatchPrefixIff | scoreboard.py:151 | An anchored match of a fixed-width pattern succeeds if and only if the string is at least as long as the pattern and each position is accepted. |
| StudentIds.SubmitterIdIff | scoreboard.py:151 | A submitter passes if and only if its first seven characters are digits; any characters may follow. |
| StudentIds.MatchIgnoresSuffix | scoreboard.py:151 | Appending characters to a matching string never makes it fail the match. |
| StudentIds.StudentNameIff | online_judge.py:36 | A judge user name passes if and only if it starts with `0` followed by six digits; any characters may follow. |
| Ordering.LessTransitive | scoreboard.py:68-69 | The `Student_ID` ordering used by the sort is transitive. |
| Ordering.LessTotal | scoreboard.py:68-69 | Any two distinct student ids are ordered one way or the other. |
| OnlineJudge.UserMap | online_judge.py:36 | The map has a key for an id if and only if some user with that id has a name passing the filter. Its value is the name of the last such user in the list. |
| OnlineJudge.Step | online_judge.py:53-60 | A submission with an uncounted verdict, or by a user not in the map, leaves the table unchanged. Otherwise only the mapped student's entry is created or changed, starting from verdict 0 and penalty 0. The stored verdict becomes the larger of the old one and the submission's. The penalty grows by one unless the stored verdict was already accepted. |
| OnlineJudge.Reverse | online_judge.py:50 | The processed list is the fetched list turned around, so the oldest submission comes first. |
| OnlineJudge.History | online_judge.py:54 | A student's history holds only counted verdicts (4 to 10) and is no longer than the submission list. |
| OnlineJudge.FoldMatchesHistory | online_judge.py:51-58 | After folding in order, a student has an entry if and only if they have a counted submission. The entry's verdict is the maximum of their counted verdicts. Its penalty is the position of their first accepted submission, or their number of counted submissions if none was accepted. |
| OnlineJudge.GetSubmission | online_judge.py:38-62 | The result of `get_submission` has an entry for exactly the students with a counted submission. The verdict is their best counted verdict, between 4 and 10. The penalty is the number of counted submissions, oldest first, up to and including the first accepted one, and lies between 1 and the history length. |

## Left out

- Fetching pages and driving the browser (scoreboard.py:98-149) are I/O. This covers cookies, waits and polling until the page has no empty cells. A crawled page is a parameter, already reduced to its submitter and verdict columns.
- `visualize`, `save_data`, `load_data` and `main` (scoreboard.py:71-95, 154-167) are rendering, pickling and configuration, not part of the table logic.
- In the source, each write goes to the row object that `loc` returns. The model lets every write land in the table. Whether pandas returns a view or a copy there is library behaviour outside this model.
- HTTP requests and JSON decoding in `Online_Judge` (online_judge.py:35-36, 47-49) are I/O. The decoded user list and submission list are parameters.
- Malformed API records are outside the model; its records always carry an integer id, a string name and an integer verdict. In the source, a user record missing `name` raises an uncaught `KeyError` in `get_user`; one missing `id` raises it only when its name passes the filter (online_judge.py:36). A submission missing `verdict_id`, or missing `user_id` with a counted verdict, raises a `KeyError` that is caught (online_judge.py:59-60); a submission missing `user_id` with an uncounted verdict raises nothing. In every such case the submission is skipped. A verdict that is not a number raises an uncaught `TypeError` at the comparison (online_judge.py:54).
- `static/render.js` (page colouring and click handlers) and `web.py` (web routes and cookies) are user interface and framework glue.
- StudentIds.SubmitterIdIff: `\d` is modelled as the ASCII digits `0` to `9`. Python's `re` on `str` also accepts other Unicode decimal digits, so the source's filter lets through slightly more strings.
- StudentIds.StudentNameIff: the same ASCII-only reading of `\d` applies to the user-name filter.
- Scoreboard.Update: a problem id listed twice would give the DataFrame duplicate columns, which the model does not represent. In the source, `student[problem_id]` is then a two-element Series, and the comparison at scoreboard.py:61 or scoreboard.py:65 raises `ValueError` on the first row of that page. The model instead treats the id as one column and completes normally, processing a separately fetched page for each listing of the id; by `FoldEventsOutcome` a cell depends only on which rows were seen, so the second pass changes nothing when both fetches return the same page.
