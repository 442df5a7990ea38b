# ROS 2 test-case statistics: pagination, tallies and ranking

This project models the core of `ros2_test_cases_stats.py`. The script reports
on the GitHub issues of a test-case repository that carry a given label. It
pages through the results of a GraphQL `search`, and it has two reports:

- `query_open_assignment` (`--assignments`) counts the open issues and the
  open issues that have at least one assignee. For each login, it tallies how
  often that login is assigned to an open issue.
- `query_repository_issues` (the default) counts the closed and the open
  issues and tallies the assignees of closed issues. It returns the list of
  responses it received.

Both reports then print the tallies as a ranking. The ranking is the
`(count, login)` pairs sorted in reverse and numbered from 1, followed by a
summary line whose percentage divides by the open-issue count (first report)
or by the total issue count (second report).

The model is organised as four modules.

- `Pages` (`pages.dfy`) holds the data the server returns and the cursor
  protocol.
  - An `Issue` keeps its `closed` flag and its assignees' logins. A `Page`
    keeps its nodes, `hasNextPage` and `endCursor`.
  - The server is a `PageSource`, a function from the cursor text to the page
    it answers with.
  - `Walk` is the sequence of pages that a `while has_next_page` loop
    receives. `CursorFor` is the cursor text of request *k*: the unquoted
    literal `null` first, then the previous page's `endCursor` in double
    quotes.
- `Tally` (`tally.dfy`) holds the counts a report should end with, as
  recursive functions over the issues seen. These are `OpenCount`,
  `ClosedCount`, `AssignedCount`, `LoginCount`, `EntryCount`, and the
  predicate `Tallies`, which says when a `contributors` dictionary is exactly
  the per-login tally.
- `Ranking` (`ranking.dfy`) holds Python's tuple and `str` order (`Above`,
  `LexLess`), an insertion sort that is a reference for `sorted(...,
  reverse=True)`, and the predicate `IsRanking` for the printed lines. The
  method `Rank` builds the ranking from a dictionary.
- `Reports` (`reports.dfy`) holds the two drivers as imperative methods. Each
  has a page loop (`CollectOpenAssignment`, `CollectRepositoryIssues`), and
  the inner loops are `TallyOpenPage`, `TallyClosedPage` and
  `TallyAssignees`. Every loop carries invariants that tie its counters and
  its `contributors` map to the `Tally` functions of the issues read so far.

The summary's division is modelled as a `Result`. When the denominator is 0,
Python raises `ZeroDivisionError`, and the model returns
`Err(ZeroDivisionError)`. In the default report, `responses` is also an
`Err` in that case, because the exception is raised before the `return`.

## Model

| member | source | states |
|---|---|---|
| `Pages.Quote` | ros2_test_cases_stats.py:123-126 | a later cursor is the end cursor between two double quotes, two characters longer |
| `Pages.NullIsNotQuoted` | ros2_test_cases_stats.py:100 | the first cursor `null` differs from every quoted cursor |
| `Pages.QuoteInjective` | ros2_test_cases_stats.py:125 | distinct end cursors give distinct request cursors |
| `Pages.WalkFollowsCursors` | ros2_test_cases_stats.py:100-128 | each page of the walk is the server's answer to `null` (first request) or to the quoted end cursor of the page before it; every page but the last has a next page, and the last has none |
| `Pages.OnlyRun` | ros2_test_cases_stats.py:105-128 | any sequence of pages that follows the cursors this way is the walk, so every page up to the first without a next page is fetched exactly once, in order |
| `Pages.ProgressStep` | ros2_test_cases_stats.py:122-128 | one iteration receives the answer to the current cursor, then either moves the cursor to the quoted end cursor with the rest of the walk still ahead, or stops with the whole walk received |
| `Tally.ClosedCount` | ros2_test_cases_stats.py:153-163 | every issue is closed or open: the closed count plus the open count is the number of issues |
| `Tally.AssignedCount` | ros2_test_cases_stats.py:112-114 | open issues with an assignee, each counted once, are never more than the open issues |
| `Tally.LoginCountPositive` | ros2_test_cases_stats.py:115-119 | a login's tally is positive exactly when it is an assignee of some counted issue (open issues in one report, closed in the other) |
| `Tally.CountsAppend` | ros2_test_cases_stats.py:110-120 | every count over two runs of issues is the sum of the counts over each |
| `Tally.UncountedIssueIsInert` | ros2_test_cases_stats.py:154-163 | an issue a report does not tally changes no tally; in the assignment report a closed issue changes no count, and in the default report an open issue only raises the open count |
| `Tally.CountsSnoc` | ros2_test_cases_stats.py:110-120 | reading one more issue adds exactly that issue's share to every count and every login's tally |
| `Tally.TalliesCounted` | ros2_test_cases_stats.py:115-119 | tallying the assignees of a counted issue into the tally of the issues before it gives the tally of all of them |
| `Tally.TallySumOverLogins` | ros2_test_cases_stats.py:115-119 | the tallies of all logins add up to the number of assignee entries on the counted issues |
| `Ranking.LexLessTotal` | ros2_test_cases_stats.py:131 | Python's order on distinct strings puts one before the other |
| `Ranking.LexLessTransitive` | ros2_test_cases_stats.py:131 | Python's order on strings is transitive |
| `Ranking.AboveTotal` | ros2_test_cases_stats.py:131 | of two distinct `(count, login)` entries, one is printed above the other |
| `Ranking.AboveTransitive` | ros2_test_cases_stats.py:131 | the printing order on entries is transitive |
| `Ranking.DescendingUnique` | ros2_test_cases_stats.py:131 | two descending sequences of the same entries are equal |
| `Ranking.Insert` | ros2_test_cases_stats.py:131 | inserting an entry into a descending sequence keeps it descending and adds exactly that entry |
| `Ranking.SortDescending` | ros2_test_cases_stats.py:130-131 | the sort of distinct entries is descending under the `(count, login)` tuple order and a permutation of its input |
| `Ranking.RankingLoginsDistinct` | ros2_test_cases_stats.py:130-133 | no login is printed on two lines |
| `Ranking.RankingIsUnique` | ros2_test_cases_stats.py:130-133 | the ranking is determined by the dictionary alone, whatever order `items()` yields its entries in |
| `Ranking.RankingOrder` | ros2_test_cases_stats.py:130-133 | counts never go up down the ranking, and equal counts come in descending order of login |
| `Ranking.Rank` | ros2_test_cases_stats.py:130-133 | the printed lines list every key of the dictionary exactly once with its count, ranked 1 to n, sorted by `(count, login)` in descending order |
| `Reports.RankingSum` | ros2_test_cases_stats.py:130-133 | the counts on the ranking of a tally add up to the number of assignee entries on the counted issues |
| `Reports.TallyAssignees` | ros2_test_cases_stats.py:115-119 | after the assignee loop each login's tally has gone up by its occurrences in the assignee list; the keys are the old keys plus the assignees |
| `Reports.TallyOpenPage` | ros2_test_cases_stats.py:110-120 | after a page's issue loop in the assignment report, the counters and the tally are those of all issues seen so far plus the page's |
| `Reports.TallyClosedPage` | ros2_test_cases_stats.py:153-163 | the same for the default report's issue loop |
| `Reports.CollectOpenAssignment` | ros2_test_cases_stats.py:100-128 | the assignment report's page loop requests exactly the cursors of the walk; it ends with the open count, the assigned count and the tally of open issues over all issues of the walk |
| `Reports.QueryOpenAssignment` | ros2_test_cases_stats.py:99-137 | the assignment report ends with those counts and tally; every tally is at least 1; it prints the ranking of the tally, whose counts add up to the assignee entries on open issues; the summary is `assigned out of open`, or a `ZeroDivisionError` when there is no open issue |
| `Reports.CollectRepositoryIssues` | ros2_test_cases_stats.py:141-171 | the default report's page loop requests exactly the cursors of the walk; it logs one response per page in request order, and ends with the open and closed counts and the tally of closed issues |
| `Reports.QueryRepositoryIssues` | ros2_test_cases_stats.py:140-183 | the default report's counts and tally; open plus closed is the number of issues seen; every tally is at least 1; it prints the ranking; the summary is `closed out of total`; it returns the log of all pages, unless the total is 0, when it raises `ZeroDivisionError` and returns nothing |

## Left out

- `graphql_query` (ros2_test_cases_stats.py:72-96) is left out. It is an HTTPS POST with exception classification, sleeps and an endless retry loop, and it is network I/O. The model replaces it with the `PageSource` function, which always answers. Failed requests and their retries are not modelled.
- The GraphQL query text and `Template.substitute` (ros2_test_cases_stats.py:26-69, 106-107, 148-149) are left out. Only the cursor text that is substituted into `after:` is modelled. The repository and label parameters go into the query unchanged and do not affect the logic, so they are not modelled.
- Responses that lack the fields the reports index (ros2_test_cases_stats.py:109-111, 122, 152-154, 165) are not modelled. One example is a GraphQL error body with `"data": null`. On such a response the source aborts with `TypeError` or `KeyError`, and the model has no way to express it: every `Page` has nodes, `hasNextPage` and `endCursor`, and every `Issue` has `closed` and its assignees.
- The JSON response is reduced to the fields the reports read: `closed`, the assignees' `login`s, `hasNextPage` and `endCursor`. The `responses` log therefore holds `Page` values, not the raw JSON documents.
- `Reports.CollectOpenAssignment`, `Reports.QueryOpenAssignment`, `Reports.CollectRepositoryIssues` and `Reports.QueryRepositoryIssues` require a ghost bound within which the server reports that there is no next page. The source loops forever against a server that never says so, and that non-termination is not modelled.
- The floating-point percentage and all printing (ros2_test_cases_stats.py:133-137, 176-181) are left out. The summary keeps only its integer numerator and denominator, and the division by zero.
- The order in which `contributors.items()` yields entries is not modelled. `Ranking.Rank` takes the keys in an arbitrary order, and `Ranking.RankingIsUnique` shows that the printed ranking does not depend on it.
- `IsoDate` (ros2_test_cases_stats.py:186-188) is unused by the reports, so it is left out.
- `parse_args` and `main` (ros2_test_cases_stats.py:191-231) are command-line and file I/O plumbing: argument parsing, the `GITHUB_TOKEN` lookup with its exit status 1 when the token is missing or empty, the choice between the two reports and the `json.dump` of the responses. They are left out.
