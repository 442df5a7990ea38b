/**
 The two report drivers, `query_open_assignment` and `query_repository_issues`:
 each follows the cursor from page to page, tallies assignees into a
 `contributors` dictionary and counts issues, then prints the ranking and a
 summary line.
 */
module Reports {
  import opened Pages
  import opened Tally
  import opened Ranking

  /** The exception a report raises: the summary's percentage divides by zero. */
  datatype Raised = ZeroDivisionError

  datatype Result<T> = Ok(value: T) | Err(error: Raised)

  /** The summary line `part out of whole` with its percentage
      `part * 100.0 / whole`; only the integers are modelled. */
  datatype Summary = Summary(part: nat, whole: nat)

  /** The sum of the counts on the ranking's lines. */
  function SumOfCounts(lines: seq<Line>): int
  {
    if lines == [] then 0 else lines[0].entry.count + SumOfCounts(lines[1..])
  }

  /** The logins on the ranking's lines, in order. */
  function Logins(lines: seq<Line>): seq<string>
  {
    seq(|lines|, i requires 0 <= i < |lines| => lines[i].entry.login)
  }

  lemma {:induction false} SumOfCountsIsSumOfTallies(lines: seq<Line>, s: seq<Issue>, mode: Mode)
    requires forall i :: 0 <= i < |lines| ==> lines[i].entry.count == LoginCount(s, mode, lines[i].entry.login)
    ensures SumOfCounts(lines) == SumLoginCounts(Logins(lines), s, mode)
  {
    if lines != [] {
      SumOfCountsIsSumOfTallies(lines[1..], s, mode);
      assert Logins(lines)[1..] == Logins(lines[1..]);
    }
  }

  /** The counts of the ranking of a tally add up to the number of assignee
      entries on the issues it counts. */
  lemma RankingSum(lines: seq<Line>, contributors: map<string, int>, s: seq<Issue>, mode: Mode)
    requires IsRanking(lines, contributors) && Tallies(contributors, s, mode)
    ensures SumOfCounts(lines) == EntryCount(s, mode)
  {
    var logins := Logins(lines);
    SumOfCountsIsSumOfTallies(lines, s, mode);
    forall i, j | 0 <= i < j < |logins| ensures logins[i] != logins[j] {
      RankingLoginsDistinct(lines, contributors, i, j);
    }
    forall l | LoginCount(s, mode, l) > 0 ensures l in logins {
      var i :| 0 <= i < |lines| && lines[i].entry.login == l;
      assert logins[i] == l;
    }
    TallySumOverLogins(logins, s, mode);
  }

  /** The inner `for assignee in assignees` loop of both reports: a missing
      login is first inserted with 0, then every login's entry goes up by one. */
  method TallyAssignees(contributors: map<string, int>, assignees: seq<string>)
      returns (updated: map<string, int>)
    ensures forall l :: Count(updated, l) == Count(contributors, l) + Occurrences(assignees, l)
    ensures forall l :: l in updated <==> l in contributors || l in assignees
  {
    updated := contributors;
    var k := 0;
    while k < |assignees|
      invariant 0 <= k <= |assignees|
      invariant forall l :: Count(updated, l) == Count(contributors, l) + Occurrences(assignees[..k], l)
      invariant forall l :: l in updated <==> l in contributors || l in assignees[..k]
    {
      var login := assignees[k];
      if login !in updated {
        updated := updated[login := 0];
      }
      updated := updated[login := updated[login] + 1];
      assert assignees[..k + 1] == assignees[..k] + [login];
      assert assignees[..k + 1][..k] == assignees[..k];
      k := k + 1;
    }
    assert assignees[..k] == assignees;
  }

  /** The `for issue in results['nodes']` loop of `query_open_assignment`:
      given the state after the issues `seen`, the state after them and the
      page's issues `nodes`. */
  method TallyOpenPage(contributors: map<string, int>, openIssues: nat, assignedIssues: nat,
                       nodes: seq<Issue>, ghost seen: seq<Issue>)
      returns (contributors': map<string, int>, openIssues': nat, assignedIssues': nat)
    requires openIssues == OpenCount(seen) && assignedIssues == AssignedCount(seen)
    requires Tallies(contributors, seen, OpenAssignment)
    ensures openIssues' == OpenCount(seen + nodes) && assignedIssues' == AssignedCount(seen + nodes)
    ensures Tallies(contributors', seen + nodes, OpenAssignment)
  {
    contributors', openIssues', assignedIssues' := contributors, openIssues, assignedIssues;
    var j := 0;
    assert seen + nodes[..j] == seen;
    while j < |nodes|
      invariant 0 <= j <= |nodes|
      invariant openIssues' == OpenCount(seen + nodes[..j]) && assignedIssues' == AssignedCount(seen + nodes[..j])
      invariant Tallies(contributors', seen + nodes[..j], OpenAssignment)
    {
      var issue := nodes[j];
      ghost var done := seen + nodes[..j];
      CountsSnoc(done, issue, OpenAssignment);
      if !issue.closed {
        if |issue.assignees| > 0 {
          assignedIssues' := assignedIssues' + 1;
        }
        var updated := TallyAssignees(contributors', issue.assignees);
        TalliesCounted(contributors', updated, done, issue, OpenAssignment);
        contributors' := updated;
        openIssues' := openIssues' + 1;
      } else {
        TalliesUncounted(contributors', done, issue, OpenAssignment);
      }
      ReadOneMore(done, seen, nodes, j);
      j := j + 1;
    }
    assert nodes[..j] == nodes;
  }

  /** The `for issue in results['nodes']` loop of `query_repository_issues`. */
  method TallyClosedPage(contributors: map<string, int>, openIssues: nat, closedIssues: nat,
                         nodes: seq<Issue>, ghost seen: seq<Issue>)
      returns (contributors': map<string, int>, openIssues': nat, closedIssues': nat)
    requires openIssues == OpenCount(seen) && closedIssues == ClosedCount(seen)
    requires Tallies(contributors, seen, ClosedIssues)
    ensures openIssues' == OpenCount(seen + nodes) && closedIssues' == ClosedCount(seen + nodes)
    ensures Tallies(contributors', seen + nodes, ClosedIssues)
  {
    contributors', openIssues', closedIssues' := contributors, openIssues, closedIssues;
    var j := 0;
    assert seen + nodes[..j] == seen;
    while j < |nodes|
      invariant 0 <= j <= |nodes|
      invariant openIssues' == OpenCount(seen + nodes[..j]) && closedIssues' == ClosedCount(seen + nodes[..j])
      invariant Tallies(contributors', seen + nodes[..j], ClosedIssues)
    {
      var issue := nodes[j];
      ghost var done := seen + nodes[..j];
      CountsSnoc(done, issue, ClosedIssues);
      if issue.closed {
        closedIssues' := closedIssues' + 1;
        var updated := TallyAssignees(contributors', issue.assignees);
        TalliesCounted(contributors', updated, done, issue, ClosedIssues);
        contributors' := updated;
      } else {
        TalliesUncounted(contributors', done, issue, ClosedIssues);
        openIssues' := openIssues' + 1;
      }
      ReadOneMore(done, seen, nodes, j);
      j := j + 1;
    }
    assert nodes[..j] == nodes;
  }

  /** The page loop of `query_open_assignment`: walks the pages from the
      `null` cursor; on every open issue counts it, counts it as assigned if it
      has an assignee, and tallies its assignees; closed issues are skipped.
      `requests` are the cursors it sends. */
  method CollectOpenAssignment(fetch: PageSource, ghost bound: nat)
      returns (contributors: map<string, int>, openIssues: nat, assignedIssues: nat,
               ghost requests: seq<string>)
    requires Ends(fetch, Null, bound)
    ensures RequestLog(fetch, Null, requests, Walk(fetch, Null, bound))
    ensures var s := Issues(Walk(fetch, Null, bound));
            && openIssues == OpenCount(s)
            && assignedIssues == AssignedCount(s)
            && Tallies(contributors, s, OpenAssignment)
  {
    var cursor := Null;
    var hasNextPage := true;
    contributors := map[];
    openIssues := 0;
    assignedIssues := 0;
    requests := [];
    ghost var visited: seq<Page> := [];
    ghost var seen: seq<Issue> := [];
    ghost var fuel := bound;
    ProgressStart(fetch, Null, bound);
    while hasNextPage
      invariant Progress(fetch, Null, bound, visited, cursor, hasNextPage, fuel)
      invariant RequestLog(fetch, Null, requests, visited)
      invariant seen == Issues(visited)
      invariant openIssues == OpenCount(seen) && assignedIssues == AssignedCount(seen)
      invariant Tallies(contributors, seen, OpenAssignment)
      decreases fuel
    {
      var page := fetch(cursor);
      RequestLogStep(fetch, Null, requests, visited, cursor);
      requests := requests + [cursor];
      ProgressStep(fetch, Null, bound, visited, cursor, fuel);
      IssuesAppend(visited, page);
      visited := visited + [page];
      contributors, openIssues, assignedIssues := TallyOpenPage(contributors, openIssues, assignedIssues, page.nodes, seen);
      seen := seen + page.nodes;
      if page.hasNextPage {
        cursor := Quote(page.endCursor);
        hasNextPage := true;
      } else {
        hasNextPage := false;
      }
      fuel := fuel - 1;
    }
  }

  /** `query_open_assignment`: the page loop, then the ranking of the
      contributors and the summary `assigned out of open`. */
  method QueryOpenAssignment(fetch: PageSource, ghost bound: nat)
      returns (contributors: map<string, int>, openIssues: nat, assignedIssues: nat,
               ranking: seq<Line>, summary: Result<Summary>, ghost requests: seq<string>)
    requires Ends(fetch, Null, bound)
    ensures RequestLog(fetch, Null, requests, Walk(fetch, Null, bound))
    ensures var s := Issues(Walk(fetch, Null, bound));
            && openIssues == OpenCount(s)
            && assignedIssues == AssignedCount(s)
            && Tallies(contributors, s, OpenAssignment)
            && SumOfCounts(ranking) == EntryCount(s, OpenAssignment)
    ensures forall l :: l in contributors ==> contributors[l] >= 1
    ensures IsRanking(ranking, contributors)
    ensures summary == if openIssues == 0 then Err(ZeroDivisionError) else Ok(Summary(assignedIssues, openIssues))
    ensures summary.Ok? ==> summary.value.part <= summary.value.whole
  {
    contributors, openIssues, assignedIssues, requests := CollectOpenAssignment(fetch, bound);
    ghost var s := Issues(Walk(fetch, Null, bound));
    ranking := Rank(contributors);
    RankingSum(ranking, contributors, s, OpenAssignment);
    if openIssues == 0 {
      summary := Err(ZeroDivisionError);
    } else {
      summary := Ok(Summary(assignedIssues, openIssues));
    }
  }

  /** The page loop of `query_repository_issues`: walks the pages from the
      `null` cursor, logging every response; counts each issue as closed or
      open and tallies the assignees of closed issues only. */
  method CollectRepositoryIssues(fetch: PageSource, ghost bound: nat)
      returns (contributors: map<string, int>, openIssues: nat, closedIssues: nat,
               log: seq<Page>, ghost requests: seq<string>)
    requires Ends(fetch, Null, bound)
    ensures log == Walk(fetch, Null, bound)
    ensures RequestLog(fetch, Null, requests, log)
    ensures var s := Issues(log);
            && openIssues == OpenCount(s)
            && closedIssues == ClosedCount(s)
            && Tallies(contributors, s, ClosedIssues)
  {
    var cursor := Null;
    var hasNextPage := true;
    contributors := map[];
    openIssues := 0;
    closedIssues := 0;
    log := [];
    requests := [];
    ghost var seen: seq<Issue> := [];
    ghost var fuel := bound;
    ProgressStart(fetch, Null, bound);
    while hasNextPage
      invariant Progress(fetch, Null, bound, log, cursor, hasNextPage, fuel)
      invariant RequestLog(fetch, Null, requests, log)
      invariant seen == Issues(log)
      invariant openIssues == OpenCount(seen) && closedIssues == ClosedCount(seen)
      invariant Tallies(contributors, seen, ClosedIssues)
      decreases fuel
    {
      var page := fetch(cursor);
      RequestLogStep(fetch, Null, requests, log, cursor);
      requests := requests + [cursor];
      ProgressStep(fetch, Null, bound, log, cursor, fuel);
      ghost var before := log;
      log := log + [page];
      contributors, openIssues, closedIssues := TallyClosedPage(contributors, openIssues, closedIssues, page.nodes, seen);
      seen := seen + page.nodes;
      IssuesAppend(before, page);
      if page.hasNextPage {
        cursor := Quote(page.endCursor);
        hasNextPage := true;
      } else {
        hasNextPage := false;
      }
      fuel := fuel - 1;
    }
  }

  /** `query_repository_issues`: the page loop, then the ranking and the
      summary `closed out of all`; it returns the response log, unless the
      summary divides by zero and raises instead. */
  method QueryRepositoryIssues(fetch: PageSource, ghost bound: nat)
      returns (contributors: map<string, int>, openIssues: nat, closedIssues: nat,
               ranking: seq<Line>, summary: Result<Summary>, responses: Result<seq<Page>>,
               ghost requests: seq<string>)
    requires Ends(fetch, Null, bound)
    ensures RequestLog(fetch, Null, requests, Walk(fetch, Null, bound))
    ensures var s := Issues(Walk(fetch, Null, bound));
            && openIssues == OpenCount(s)
            && closedIssues == ClosedCount(s)
            && openIssues + closedIssues == |s|
            && Tallies(contributors, s, ClosedIssues)
            && SumOfCounts(ranking) == EntryCount(s, ClosedIssues)
    ensures forall l :: l in contributors ==> contributors[l] >= 1
    ensures IsRanking(ranking, contributors)
    ensures summary == if closedIssues + openIssues == 0 then Err(ZeroDivisionError)
                       else Ok(Summary(closedIssues, closedIssues + openIssues))
    ensures responses == if closedIssues + openIssues == 0 then Err(ZeroDivisionError)
                         else Ok(Walk(fetch, Null, bound))
  {
    var log;
    contributors, openIssues, closedIssues, log, requests := CollectRepositoryIssues(fetch, bound);
    ghost var s := Issues(log);
    assert openIssues + closedIssues == |s|;
    var total := openIssues + closedIssues;
    if total == 0 {
      summary := Err(ZeroDivisionError);
      responses := Err(ZeroDivisionError);
    } else {
      summary := Ok(Summary(closedIssues, total));
      responses := Ok(log);
    }
    ranking := Rank(contributors);
    RankingSum(ranking, contributors, s, ClosedIssues);
  }
}
