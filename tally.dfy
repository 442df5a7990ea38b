/**
 What the two reports count, as functions of the issues they have seen.
 Every count is defined from the end of the sequence, so that seeing one more
 issue adds that issue's share to the count of the issues before it.
 */
module Tally {
  import opened Pages

  /** Which report runs: `--assignments` (open issues and who is assigned to
      them) or the default closed/open report. */
  datatype Mode = OpenAssignment | ClosedIssues

  /** Whether the report tallies the assignees of issue `i`: open issues in
      the assignment report, closed issues in the other. */
  predicate Counted(i: Issue, mode: Mode)
  {
    match mode
    case OpenAssignment => !i.closed
    case ClosedIssues => i.closed
  }

  /** All issues of the pages, in the order the report reads them. */
  function Issues(pages: seq<Page>): (s: seq<Issue>)
  {
    if pages == [] then [] else Issues(pages[..|pages| - 1]) + pages[|pages| - 1].nodes
  }

  /** The issues of one more page come after those of the pages before it. */
  lemma IssuesAppend(pages: seq<Page>, p: Page)
    ensures Issues(pages + [p]) == Issues(pages) + p.nodes
  {
    assert (pages + [p])[..|pages|] == pages;
  }

  /** Reading one more issue of a page extends the issues read so far by it. */
  lemma ReadOneMore(seen: seq<Issue>, done: seq<Issue>, nodes: seq<Issue>, j: nat)
    requires j < |nodes| && seen == done + nodes[..j]
    ensures seen + [nodes[j]] == done + nodes[..j + 1]
  {
    assert nodes[..j + 1] == nodes[..j] + [nodes[j]];
  }

  /** How often `login` occurs in a list of logins. */
  function Occurrences(logins: seq<string>, login: string): (r: nat)
    ensures r <= |logins|
    ensures r > 0 <==> login in logins
  {
    if logins == [] then 0
    else Occurrences(logins[..|logins| - 1], login) + (if logins[|logins| - 1] == login then 1 else 0)
  }

  /** The number of open issues. */
  function OpenCount(s: seq<Issue>): (r: nat)
  {
    if s == [] then 0 else OpenCount(s[..|s| - 1]) + (if s[|s| - 1].closed then 0 else 1)
  }

  /** The number of closed issues; every issue is open or closed, never both. */
  function ClosedCount(s: seq<Issue>): (r: nat)
    ensures r + OpenCount(s) == |s|
  {
    if s == [] then 0 else ClosedCount(s[..|s| - 1]) + (if s[|s| - 1].closed then 1 else 0)
  }

  /** The number of open issues with at least one assignee, each counted once
      however many assignees it has; hence never more than the open issues. */
  function AssignedCount(s: seq<Issue>): (r: nat)
    ensures r <= OpenCount(s)
  {
    if s == [] then 0
    else AssignedCount(s[..|s| - 1]) + (if !s[|s| - 1].closed && |s[|s| - 1].assignees| > 0 then 1 else 0)
  }

  /** The number of assignee entries equal to `login` on the counted issues. */
  function LoginCount(s: seq<Issue>, mode: Mode, login: string): (r: nat)
  {
    if s == [] then 0
    else
      var i := s[|s| - 1];
      LoginCount(s[..|s| - 1], mode, login) + (if Counted(i, mode) then Occurrences(i.assignees, login) else 0)
  }

  /** The number of assignee entries on the counted issues, whoever they name. */
  function EntryCount(s: seq<Issue>, mode: Mode): (r: nat)
  {
    if s == [] then 0
    else
      var i := s[|s| - 1];
      EntryCount(s[..|s| - 1], mode) + (if Counted(i, mode) then |i.assignees| else 0)
  }

  /** The tally of `login` in a contributors dictionary: 0 for a missing key. */
  function Count(contributors: map<string, int>, login: string): int
  {
    if login in contributors then contributors[login] else 0
  }

  /** `contributors` is exactly the tally of the issues `s`: a login is a key
      iff it is an assignee of some counted issue, and its value is the number
      of times it is. */
  ghost predicate Tallies(contributors: map<string, int>, s: seq<Issue>, mode: Mode)
  {
    && (forall l :: l in contributors <==> LoginCount(s, mode, l) > 0)
    && (forall l :: l in contributors ==> contributors[l] == LoginCount(s, mode, l))
  }

  /** A login has a positive tally exactly when it is assigned to one of the
      counted issues, so in the closed-issue report the assignees of open
      issues never enter the tally, and in the assignment report those of
      closed issues never do. */
  lemma {:induction false} LoginCountPositive(s: seq<Issue>, mode: Mode, login: string)
    ensures LoginCount(s, mode, login) > 0 <==>
            exists k :: 0 <= k < |s| && Counted(s[k], mode) && login in s[k].assignees
  {
    if s != [] {
      var init := s[..|s| - 1];
      LoginCountPositive(init, mode, login);
      if LoginCount(s, mode, login) > 0 {
        if LoginCount(init, mode, login) > 0 {
          var k :| 0 <= k < |init| && Counted(init[k], mode) && login in init[k].assignees;
          assert s[k] == init[k];
        } else {
          assert Counted(s[|s| - 1], mode) && login in s[|s| - 1].assignees;
        }
      } else {
        forall k | 0 <= k < |s| && Counted(s[k], mode)
          ensures login !in s[k].assignees
        {
          if k < |init| { assert s[k] == init[k]; }
        }
      }
    }
  }

  /** Every count over two runs of issues is the sum of the counts over each. */
  lemma {:induction false} CountsAppend(a: seq<Issue>, b: seq<Issue>, mode: Mode)
    ensures OpenCount(a + b) == OpenCount(a) + OpenCount(b)
    ensures ClosedCount(a + b) == ClosedCount(a) + ClosedCount(b)
    ensures AssignedCount(a + b) == AssignedCount(a) + AssignedCount(b)
    ensures EntryCount(a + b, mode) == EntryCount(a, mode) + EntryCount(b, mode)
    ensures forall l :: LoginCount(a + b, mode, l) == LoginCount(a, mode, l) + LoginCount(b, mode, l)
    decreases |b|
  {
    if b != [] {
      var init := b[..|b| - 1];
      CountsAppend(a, init, mode);
      assert (a + b)[..|a + b| - 1] == a + init;
      assert (a + b)[|a + b| - 1] == b[|b| - 1];
    } else {
      assert a + b == a;
    }
  }

  /** An issue the report does not tally changes no tally, wherever it
      stands: a closed issue changes nothing at all in the assignment report,
      and an open issue only raises the open count in the closed-issue report. */
  lemma UncountedIssueIsInert(a: seq<Issue>, b: seq<Issue>, i: Issue, mode: Mode)
    requires !Counted(i, mode)
    ensures EntryCount(a + [i] + b, mode) == EntryCount(a + b, mode)
    ensures forall l :: LoginCount(a + [i] + b, mode, l) == LoginCount(a + b, mode, l)
    ensures mode == OpenAssignment ==>
              OpenCount(a + [i] + b) == OpenCount(a + b) && AssignedCount(a + [i] + b) == AssignedCount(a + b)
    ensures mode == ClosedIssues ==>
              ClosedCount(a + [i] + b) == ClosedCount(a + b) && OpenCount(a + [i] + b) == OpenCount(a + b) + 1
  {
    CountsAppend(a + [i], b, mode);
    CountsAppend(a, [i], mode);
    CountsAppend(a, b, mode);
    assert [i][..0] == [];
  }

  /** Seeing one more issue adds exactly that issue's share to every count. */
  lemma CountsSnoc(s: seq<Issue>, i: Issue, mode: Mode)
    ensures OpenCount(s + [i]) == OpenCount(s) + (if i.closed then 0 else 1)
    ensures ClosedCount(s + [i]) == ClosedCount(s) + (if i.closed then 1 else 0)
    ensures AssignedCount(s + [i]) == AssignedCount(s) + (if !i.closed && |i.assignees| > 0 then 1 else 0)
    ensures EntryCount(s + [i], mode) == EntryCount(s, mode) + (if Counted(i, mode) then |i.assignees| else 0)
    ensures forall l :: LoginCount(s + [i], mode, l) ==
                        LoginCount(s, mode, l) + (if Counted(i, mode) then Occurrences(i.assignees, l) else 0)
  {
    assert (s + [i])[..|s|] == s;
  }

  /** Adding the assignees of a counted issue to the tally of the issues
      before it gives the tally of all of them. */
  lemma TalliesCounted(before: map<string, int>, after: map<string, int>, s: seq<Issue>, i: Issue, mode: Mode)
    requires Tallies(before, s, mode) && Counted(i, mode)
    requires forall l :: Count(after, l) == Count(before, l) + Occurrences(i.assignees, l)
    requires forall l :: l in after <==> l in before || l in i.assignees
    ensures Tallies(after, s + [i], mode)
  {
    CountsSnoc(s, i, mode);
    forall l ensures l in after ==> after[l] == LoginCount(s + [i], mode, l) {
      assert Count(after, l) == Count(before, l) + Occurrences(i.assignees, l);
    }
  }

  /** An issue that is not counted leaves the tally as it is. */
  lemma TalliesUncounted(c: map<string, int>, s: seq<Issue>, i: Issue, mode: Mode)
    requires Tallies(c, s, mode) && !Counted(i, mode)
    ensures Tallies(c, s + [i], mode)
  {
    CountsSnoc(s, i, mode);
  }

  /** The sum of the tallies of the logins `logins`. */
  function SumLoginCounts(logins: seq<string>, s: seq<Issue>, mode: Mode): nat
  {
    if logins == [] then 0 else LoginCount(s, mode, logins[0]) + SumLoginCounts(logins[1..], s, mode)
  }

  /** The sum over the logins `logins` of their occurrences in `assignees`. */
  function SumOccurrences(logins: seq<string>, assignees: seq<string>): nat
  {
    if logins == [] then 0 else Occurrences(assignees, logins[0]) + SumOccurrences(logins[1..], assignees)
  }

  /** A login occurs once in a list without repetitions that holds it. */
  lemma {:induction false} OccursOnce(logins: seq<string>, x: string)
    requires forall i, j :: 0 <= i < j < |logins| ==> logins[i] != logins[j]
    requires x in logins
    ensures Occurrences(logins, x) == 1
  {
    var init := logins[..|logins| - 1];
    if logins[|logins| - 1] == x {
      assert x !in init;
    } else {
      assert x in init by {
        var k :| 0 <= k < |logins| && logins[k] == x;
        assert init[k] == x;
      }
      OccursOnce(init, x);
    }
  }

  lemma {:induction false} SumOccurrencesSnoc(logins: seq<string>, a: seq<string>, x: string)
    ensures SumOccurrences(logins, a + [x]) == SumOccurrences(logins, a) + Occurrences(logins, x)
    decreases |logins|
  {
    assert (a + [x])[..|a|] == a;
    if logins != [] {
      SumOccurrencesSnoc(logins[1..], a, x);
      OccurrencesCons(logins, x);
    }
  }

  /** Occurrences counted from the front. */
  lemma {:induction false} OccurrencesCons(logins: seq<string>, x: string)
    requires logins != []
    ensures Occurrences(logins, x) == (if logins[0] == x then 1 else 0) + Occurrences(logins[1..], x)
    decreases |logins|
  {
    if |logins| > 1 {
      var init := logins[..|logins| - 1];
      OccurrencesCons(init, x);
      assert init[1..] == logins[1..][..|logins| - 2];
      assert init[0] == logins[0];
    } else {
      assert logins[1..] == [];
      assert logins[..0] == [];
    }
  }

  /** Summed over a repetition-free list of logins that holds every assignee,
      the occurrences of each login add up to the number of assignees. */
  lemma {:induction false} SumOccurrencesCover(logins: seq<string>, a: seq<string>)
    requires forall i, j :: 0 <= i < j < |logins| ==> logins[i] != logins[j]
    requires forall x :: x in a ==> x in logins
    ensures SumOccurrences(logins, a) == |a|
    decreases |a|
  {
    if a == [] {
      SumOccurrencesEmpty(logins);
    } else {
      var init, x := a[..|a| - 1], a[|a| - 1];
      assert a == init + [x];
      SumOccurrencesCover(logins, init);
      SumOccurrencesSnoc(logins, init, x);
      OccursOnce(logins, x);
    }
  }

  lemma {:induction false} SumOccurrencesEmpty(logins: seq<string>)
    ensures SumOccurrences(logins, []) == 0
  {
    if logins != [] { SumOccurrencesEmpty(logins[1..]); }
  }

  lemma {:induction false} SumLoginCountsSnoc(logins: seq<string>, s: seq<Issue>, i: Issue, mode: Mode)
    ensures SumLoginCounts(logins, s + [i], mode) ==
            SumLoginCounts(logins, s, mode) + (if Counted(i, mode) then SumOccurrences(logins, i.assignees) else 0)
  {
    CountsSnoc(s, i, mode);
    if logins != [] { SumLoginCountsSnoc(logins[1..], s, i, mode); }
  }

  lemma {:induction false} SumLoginCountsEmpty(logins: seq<string>, mode: Mode)
    ensures SumLoginCounts(logins, [], mode) == 0
  {
    if logins != [] { SumLoginCountsEmpty(logins[1..], mode); }
  }

  /** Summed over a repetition-free list of logins that holds every login
      with a positive tally, the tallies add up to the number of assignee
      entries on the counted issues. */
  lemma {:induction false} TallySumOverLogins(logins: seq<string>, s: seq<Issue>, mode: Mode)
    requires forall i, j :: 0 <= i < j < |logins| ==> logins[i] != logins[j]
    requires forall l :: LoginCount(s, mode, l) > 0 ==> l in logins
    ensures SumLoginCounts(logins, s, mode) == EntryCount(s, mode)
    decreases |s|
  {
    if s == [] {
      SumLoginCountsEmpty(logins, mode);
    } else {
      var init, i := s[..|s| - 1], s[|s| - 1];
      assert s == init + [i];
      CountsSnoc(init, i, mode);
      TallySumOverLogins(logins, init, mode);
      SumLoginCountsSnoc(logins, init, i, mode);
      if Counted(i, mode) {
        forall x | x in i.assignees ensures x in logins {
          assert LoginCount(s, mode, x) >= Occurrences(i.assignees, x) > 0;
        }
        SumOccurrencesCover(logins, i.assignees);
      }
    }
  }
}
