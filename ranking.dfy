/**
 The final ranking of both reports:
 `sorted(((v, k) for k, v in contributors.items()), reverse=True)`, numbered
 from 1 by `enumerate`.
 */
module Ranking {

  /** One `(count, login)` tuple of the generator. */
  datatype Entry = Entry(count: int, login: string)

  /** One printed line of the ranking: `{rank}. {login}: {count}`. */
  datatype Line = Line(rank: nat, entry: Entry)

  /** Python's `<` on `str`: lexicographic by code point, a proper prefix first. */
  predicate LexLess(a: string, b: string)
  {
    if a == [] then b != []
    else if b == [] then false
    else a[0] < b[0] || (a[0] == b[0] && LexLess(a[1..], b[1..]))
  }

  lemma {:induction false} LexLessIrreflexive(a: string)
    ensures !LexLess(a, a)
  {
    if a != [] { LexLessIrreflexive(a[1..]); }
  }

  lemma {:induction false} LexLessTransitive(a: string, b: string, c: string)
    requires LexLess(a, b) && LexLess(b, c)
    ensures LexLess(a, c)
  {
    if a != [] && a[0] == b[0] && b[0] == c[0] {
      LexLessTransitive(a[1..], b[1..], c[1..]);
    }
  }

  lemma {:induction false} LexLessTotal(a: string, b: string)
    requires a != b
    ensures LexLess(a, b) || LexLess(b, a)
  {
    if a != [] && b != [] && a[0] == b[0] {
      assert a == [a[0]] + a[1..] && b == [b[0]] + b[1..];
      LexLessTotal(a[1..], b[1..]);
    }
  }

  /** `x` is printed before `y`: the tuple `(x.count, x.login)` is the larger
      one under Python's tuple order, which is what `reverse=True` puts first. */
  predicate Above(x: Entry, y: Entry)
  {
    y.count < x.count || (y.count == x.count && LexLess(y.login, x.login))
  }

  lemma AboveIrreflexive(x: Entry)
    ensures !Above(x, x)
  {
    LexLessIrreflexive(x.login);
  }

  lemma AboveTransitive(x: Entry, y: Entry, z: Entry)
    requires Above(x, y) && Above(y, z)
    ensures Above(x, z)
  {
    if x.count == y.count == z.count { LexLessTransitive(z.login, y.login, x.login); }
  }

  lemma AboveTotal(x: Entry, y: Entry)
    requires x != y
    ensures Above(x, y) || Above(y, x)
  {
    if x.count == y.count { LexLessTotal(x.login, y.login); }
  }

  /** Strictly decreasing under `Above`: the order `sorted(..., reverse=True)`
      gives to distinct tuples. */
  ghost predicate Descending(s: seq<Entry>)
  {
    forall i, j :: 0 <= i < j < |s| ==> Above(s[i], s[j])
  }

  /** A sequence is empty or holds its first element. */
  lemma EmptyOrHeadIn(s: seq<Entry>)
    ensures s == [] || s[0] in s
  {
  }

  /** Two descending sequences with the same elements are equal: under a
      strict total order a set has one descending arrangement. */
  lemma {:induction false} DescendingUnique(a: seq<Entry>, b: seq<Entry>)
    requires Descending(a) && Descending(b)
    requires forall x :: x in a <==> x in b
    ensures a == b
  {
    if a == [] {
      // b is empty too: were it not, its first element would be in the empty a
      EmptyOrHeadIn(b);
    } else {
      assert a[0] in b;
      assert b != [] && b[0] in a;
      var i :| 0 <= i < |a| && a[i] == b[0];
      var j :| 0 <= j < |b| && b[j] == a[0];
      if i > 0 {
        assert Above(a[0], b[0]);
        if j > 0 {
          assert Above(b[0], a[0]);
          AboveTransitive(a[0], b[0], a[0]);
        }
        AboveIrreflexive(a[0]);
        assert false;
      }
      assert a[0] == b[0];
      forall x
        ensures x in a[1..] <==> x in b[1..]
      {
        AboveIrreflexive(a[0]);
        if x in a[1..] {
          var k :| 1 <= k < |a| && a[k] == x;
          assert Above(a[0], x);
          assert x in a && x in b;
          var m :| 0 <= m < |b| && b[m] == x;
          assert m != 0;
          assert b[1..][m - 1] == x;
        }
        if x in b[1..] {
          var k :| 1 <= k < |b| && b[k] == x;
          assert Above(b[0], x);
          assert x in b && x in a;
          var m :| 0 <= m < |a| && a[m] == x;
          assert m != 0;
          assert a[1..][m - 1] == x;
        }
      }
      DescendingUnique(a[1..], b[1..]);
      assert a == [a[0]] + a[1..] && b == [b[0]] + b[1..];
    }
  }

  /** An entry above every element of a descending sequence can lead it. */
  lemma ConsDescending(x: Entry, s: seq<Entry>)
    requires Descending(s)
    requires forall j :: 0 <= j < |s| ==> Above(x, s[j])
    ensures Descending([x] + s)
  {
    var r := [x] + s;
    forall i, j | 0 <= i < j < |r| ensures Above(r[i], r[j]) {
      if i > 0 { assert r[i] == s[i - 1] && r[j] == s[j - 1]; }
      else { assert r[j] == s[j - 1]; }
    }
  }

  /** An entry above the head of a descending sequence is above all of it. */
  lemma AboveHead(x: Entry, s: seq<Entry>)
    requires Descending(s) && s != [] && Above(x, s[0])
    ensures forall j :: 0 <= j < |s| ==> Above(x, s[j])
  {
    forall j | 0 < j < |s| ensures Above(x, s[j]) {
      AboveTransitive(x, s[0], s[j]);
    }
  }

  /** The recursive case of `Insert`: the head stays in front of the rest
      with the new entry put in. */
  lemma InsertBehindHead(s: seq<Entry>, e: Entry, rest: seq<Entry>)
    requires Descending(s) && s != [] && e !in s && !Above(e, s[0])
    requires Descending(rest) && multiset(rest) == multiset(s[1..]) + multiset{e}
    ensures Descending([s[0]] + rest)
    ensures multiset([s[0]] + rest) == multiset(s) + multiset{e}
  {
    assert s == [s[0]] + s[1..];
    AboveTotal(s[0], e);
    forall j | 0 <= j < |rest| ensures Above(s[0], rest[j]) {
      assert rest[j] in multiset(rest);
      if rest[j] != e {
        assert rest[j] in multiset(s[1..]);
        var k :| 0 <= k < |s[1..]| && s[1..][k] == rest[j];
        assert s[k + 1] == rest[j];
      }
    }
    ConsDescending(s[0], rest);
  }

  /** Inserts a new entry at its place in a descending sequence. */
  function Insert(s: seq<Entry>, e: Entry): (r: seq<Entry>)
    requires Descending(s) && e !in s
    ensures Descending(r)
    ensures multiset(r) == multiset(s) + multiset{e}
  {
    if s == [] then [e]
    else if Above(e, s[0]) then
      AboveHead(e, s);
      ConsDescending(e, s);
      [e] + s
    else
      assert e !in s[1..];
      var rest := Insert(s[1..], e);
      InsertBehindHead(s, e, rest);
      [s[0]] + rest
  }

  /** `sorted(items, reverse=True)` for items with distinct logins: the items,
      each once, in descending order. */
  function SortDescending(items: seq<Entry>): (r: seq<Entry>)
    requires forall i, j :: 0 <= i < j < |items| ==> items[i] != items[j]
    ensures Descending(r)
    ensures multiset(r) == multiset(items)
  {
    if items == [] then []
    else
      var init := items[..|items| - 1];
      var last := items[|items| - 1];
      var sorted := SortDescending(init);
      assert last !in sorted by {
        assert last !in init;
        assert last !in multiset(sorted);
      }
      assert items == init + [last];
      Insert(sorted, last)
  }

  /** `enumerate(..)` with the printed rank `i + 1`: the numbered lines
      carry the entries unchanged and in order. */
  function Enumerate(s: seq<Entry>): (lines: seq<Line>)
    ensures Entries(lines) == s
  {
    seq(|s|, i requires 0 <= i < |s| => Line(i + 1, s[i]))
  }

  /** The entries of printed lines. */
  function Entries(lines: seq<Line>): seq<Entry>
  {
    seq(|lines|, i requires 0 <= i < |lines| => lines[i].entry)
  }

  /** `lines` is the printed ranking of `contributors`: every `(login, count)`
      of the dictionary exactly once and nothing else, ordered by `(count,
      login)` descending (counts non-increasing, equal counts by login
      descending), ranked 1, 2, ... */
  ghost predicate IsRanking(lines: seq<Line>, contributors: map<string, int>)
  {
    && (forall i :: 0 <= i < |lines| ==> lines[i].rank == i + 1)
    && (forall i :: 0 <= i < |lines| ==>
          lines[i].entry.login in contributors && contributors[lines[i].entry.login] == lines[i].entry.count)
    && (forall l :: l in contributors ==> exists i :: 0 <= i < |lines| && lines[i].entry.login == l)
    && Descending(Entries(lines))
  }

  /** Each login appears on one line only. */
  lemma RankingLoginsDistinct(lines: seq<Line>, contributors: map<string, int>, i: nat, j: nat)
    requires IsRanking(lines, contributors)
    requires i < j < |lines|
    ensures lines[i].entry.login != lines[j].entry.login
  {
    var e := Entries(lines);
    assert Above(e[i], e[j]);
    if lines[i].entry.login == lines[j].entry.login {
      assert e[i] == e[j];
      AboveIrreflexive(e[i]);
    }
  }

  /** The ranking of a dictionary is determined by the dictionary alone: the
      order in which `items()` yields the entries does not show in it. */
  lemma RankingIsUnique(a: seq<Line>, b: seq<Line>, contributors: map<string, int>)
    requires IsRanking(a, contributors) && IsRanking(b, contributors)
    ensures a == b
  {
    var ea, eb := Entries(a), Entries(b);
    forall x
      ensures x in ea <==> x in eb
    {
      if x in ea { EntryOfBoth(a, b, contributors, x); }
      if x in eb { EntryOfBoth(b, a, contributors, x); }
    }
    DescendingUnique(ea, eb);
    forall i | 0 <= i < |a|
      ensures a[i] == b[i]
    {
      assert a[i] == Line(i + 1, ea[i]);
      assert b[i] == Line(i + 1, eb[i]);
    }
  }

  /** An entry on one ranking of a dictionary is on every other one. */
  lemma EntryOfBoth(a: seq<Line>, b: seq<Line>, contributors: map<string, int>, x: Entry)
    requires IsRanking(a, contributors) && IsRanking(b, contributors)
    requires x in Entries(a)
    ensures x in Entries(b)
  {
    var ea, eb := Entries(a), Entries(b);
    var i :| 0 <= i < |ea| && ea[i] == x;
    assert a[i].entry == x;
    var j :| 0 <= j < |b| && b[j].entry.login == x.login;
    assert eb[j] == x;
  }

  /** Numbering the entries of a dictionary, each once and in descending
      order, gives its ranking. */
  lemma RankOfEntries(items: seq<Entry>, sorted: seq<Entry>, contributors: map<string, int>)
    requires forall k :: 0 <= k < |items| ==>
               items[k].login in contributors && items[k].count == contributors[items[k].login]
    requires forall l :: l in contributors ==> exists k :: 0 <= k < |items| && items[k].login == l
    requires Descending(sorted) && multiset(sorted) == multiset(items)
    requires |items| == |contributors|
    ensures IsRanking(Enumerate(sorted), contributors)
    ensures |Enumerate(sorted)| == |contributors|
  {
    var lines := Enumerate(sorted);
    assert |sorted| == |multiset(sorted)| == |multiset(items)| == |items|;
    assert Entries(lines) == sorted;
    forall i | 0 <= i < |lines|
      ensures lines[i].entry.login in contributors && contributors[lines[i].entry.login] == lines[i].entry.count
    {
      assert sorted[i] in multiset(items);
    }
    forall l | l in contributors
      ensures exists i :: 0 <= i < |lines| && lines[i].entry.login == l
    {
      var k :| 0 <= k < |items| && items[k].login == l;
      assert items[k] in multiset(sorted);
      var i :| 0 <= i < |sorted| && sorted[i] == items[k];
      assert lines[i].entry.login == l;
    }
  }

  /** `items` holds one entry per key of `contributors` outside `rest`,
      each with that key's value. */
  ghost predicate Collected(items: seq<Entry>, contributors: map<string, int>, rest: set<string>)
  {
    && rest <= contributors.Keys
    && |items| + |rest| == |contributors.Keys|
    && (forall k :: 0 <= k < |items| ==>
          items[k].login in contributors && items[k].login !in rest &&
          items[k].count == contributors[items[k].login])
    && (forall l :: l in contributors && l !in rest ==>
          exists k :: 0 <= k < |items| && items[k].login == l)
    && (forall i, j :: 0 <= i < j < |items| ==> items[i].login != items[j].login)
  }

  /** Taking one more key out of `rest` and appending its entry. */
  lemma CollectedStep(items: seq<Entry>, contributors: map<string, int>, rest: set<string>, login: string)
    requires Collected(items, contributors, rest) && login in rest
    ensures Collected(items + [Entry(contributors[login], login)], contributors, rest - {login})
  {
    var items' := items + [Entry(contributors[login], login)];
    forall l | l in contributors && l !in rest - {login}
      ensures exists k :: 0 <= k < |items'| && items'[k].login == l
    {
      if l == login {
        assert items'[|items|].login == l;
      } else {
        var k :| 0 <= k < |items| && items[k].login == l;
        assert items'[k].login == l;
      }
    }
  }

  /** On a ranking the counts never go up, and lines with equal counts
      come in descending order of login. */
  lemma RankingOrder(lines: seq<Line>, contributors: map<string, int>)
    requires IsRanking(lines, contributors)
    ensures forall i, j :: 0 <= i < j < |lines| ==> lines[j].entry.count <= lines[i].entry.count
    ensures forall i, j :: 0 <= i < j < |lines| && lines[i].entry.count == lines[j].entry.count ==>
              LexLess(lines[j].entry.login, lines[i].entry.login)
  {
    forall i, j | 0 <= i < j < |lines|
      ensures Above(lines[i].entry, lines[j].entry)
    {
      assert Entries(lines)[i] == lines[i].entry && Entries(lines)[j] == lines[j].entry;
    }
  }

  /** Numbering all the entries of a dictionary, sorted, gives a ranking
      with one line per key. */
  lemma RankOfCollected(items: seq<Entry>, sorted: seq<Entry>, contributors: map<string, int>)
    requires Collected(items, contributors, {})
    requires Descending(sorted) && multiset(sorted) == multiset(items)
    ensures var lines := Enumerate(sorted);
            && IsRanking(lines, contributors)
            && |lines| == |contributors|
            && (forall i, j :: 0 <= i < j < |lines| ==> lines[j].entry.count <= lines[i].entry.count)
            && (forall i, j :: 0 <= i < j < |lines| && lines[i].entry.count == lines[j].entry.count ==>
                  LexLess(lines[j].entry.login, lines[i].entry.login))
  {
    CollectedAll(items, contributors);
    RankOfEntries(items, sorted, contributors);
    RankingOrder(Enumerate(sorted), contributors);
  }

  /** Once no key is left, the entries collected are those of the whole dictionary. */
  lemma CollectedAll(items: seq<Entry>, contributors: map<string, int>)
    requires Collected(items, contributors, {})
    ensures forall k :: 0 <= k < |items| ==>
              items[k].login in contributors && items[k].count == contributors[items[k].login]
    ensures forall l :: l in contributors ==> exists k :: 0 <= k < |items| && items[k].login == l
    ensures |items| == |contributors|
  {
    assert contributors.Keys == contributors.Keys - {};
  }

  /** Builds the ranking of `contributors`: collects its `(count, login)`
      entries in whatever order the dictionary yields them, sorts them in
      reverse, and numbers them from 1. */
  method Rank(contributors: map<string, int>) returns (lines: seq<Line>)
    ensures IsRanking(lines, contributors)
    ensures |lines| == |contributors|
    ensures forall i, j :: 0 <= i < j < |lines| ==> lines[j].entry.count <= lines[i].entry.count
    ensures forall i, j :: 0 <= i < j < |lines| && lines[i].entry.count == lines[j].entry.count ==>
              LexLess(lines[j].entry.login, lines[i].entry.login)
  {
    var items: seq<Entry> := [];
    var rest := contributors.Keys;
    while rest != {}
      invariant Collected(items, contributors, rest)
      decreases rest
    {
      var login :| login in rest;
      CollectedStep(items, contributors, rest, login);
      items := items + [Entry(contributors[login], login)];
      rest := rest - {login};
    }
    var sorted := SortDescending(items);
    lines := Enumerate(sorted);
    RankOfCollected(items, sorted, contributors);
  }
}
