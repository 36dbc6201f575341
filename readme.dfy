/**
 * The profile README generator: one GitHub Flavored Markdown table row per
 * repository, the tables, the paginated listing of the owner's
 * repositories, the public-only filter, the newest-push-first sort, the
 * active/inactive partition against a cutoff, and the placeholder
 * substitution into the README template.
 *
 * Timestamps (`pushed_at`, the cutoff, the current time) are ISO 8601
 * strings in the fixed UTC format the API returns, so comparing them as
 * dates is comparing them as strings.
 */
module Readme {
  import opened Wrappers
  import opened Text
  import opened StableSort

  /** `per_page=100`: a page this long may be followed by another. */
  const PerPage: int := 100

  /** A repository object from the API, with the fields the generator reads. */
  datatype Repo = Repo(
    name: string,
    htmlUrl: string,
    description: Option<string>,
    language: Option<string>,
    stars: Option<int>,           // None when `stargazers_count` is not a number
    pushedAt: Option<string>,
    topics: Option<seq<string>>,  // None when `topics` is not an array
    isPrivate: Option<bool>)

  /** An element of a fetched page; None stands for `null`. */
  type Record = Option<Repo>

  // ---------------------------------------------------------------------
  // formatRepoRow
  // ---------------------------------------------------------------------

  /** `isoDate`: the `YYYY-MM-DD` part of an ISO 8601 timestamp. */
  function IsoDate(ts: string): (d: string)
    ensures |d| == Min(10, |ts|)
    ensures d == ts[..|d|]
  {
    ts[..Min(10, |ts|)]
  }

  /** `.replace(/\r?\n/g, ' ')`: each line break, LF or CRLF, becomes one space. */
  function NormalizeNewlines(s: string): (r: string)
    ensures '\n' !in r
    ensures '\n' !in s ==> r == s
    ensures forall c :: c in r ==> c in s || c == ' '
  {
    if |s| == 0 then ""
    else if |s| >= 2 && s[0] == '\r' && s[1] == '\n' then " " + NormalizeNewlines(s[2..])
    else if s[0] == '\n' then " " + NormalizeNewlines(s[1..])
    else [s[0]] + NormalizeNewlines(s[1..])
  }

  /** A carriage return that does not start a CRLF pair is kept. */
  lemma LoneCarriageReturnKept(a: string, b: string)
    requires '\n' !in a && '\r' !in a && '\n' !in b
    requires b == [] || b[0] != '\n'
    ensures NormalizeNewlines(a + "\r" + b) == a + "\r" + b
  {
  }

  /** A character other than a line feed, not opening a CRLF pair, is kept. */
  lemma NormalizeCons(c: char, t: string)
    requires c != '\n' && (c != '\r' || |t| == 0 || t[0] != '\n')
    ensures NormalizeNewlines([c] + t) == [c] + NormalizeNewlines(t)
  {
    var s := [c] + t;
    assert s[0] == c && s[1..] == t;
    if |t| > 0 {
      assert s[1] == t[0];
    }
  }

  /** Text without a line feed comes through unchanged ahead of what follows it. */
  lemma {:induction false} NormalizeKeepsPrefix(a: string, rest: string)
    requires forall k :: 0 <= k < |a| ==> a[k] != '\n'
    requires |a| == 0 || a[|a| - 1] != '\r' || |rest| == 0 || rest[0] != '\n'
    ensures NormalizeNewlines(a + rest) == a + NormalizeNewlines(rest)
  {
    if |a| == 0 {
      assert a + rest == rest;
    } else {
      var t := a[1..] + rest;
      assert a + rest == [a[0]] + t;
      if |a| > 1 {
        assert t[0] == a[1];
      } else {
        assert t == rest;
      }
      NormalizeKeepsPrefix(a[1..], rest);
      NormalizeCons(a[0], t);
      assert [a[0]] + a[1..] == a;
      ConcatAssoc([a[0]], a[1..], NormalizeNewlines(rest));
    }
  }

  /** A line feed (not preceded by a carriage return) becomes one space, the text around it kept. */
  lemma NormalizeLf(a: string, b: string)
    requires '\n' !in a && (|a| == 0 || a[|a| - 1] != '\r')
    ensures NormalizeNewlines(a + "\n" + b) == a + " " + NormalizeNewlines(b)
  {
    var rest := ['\n'] + b;
    assert a + "\n" + b == a + rest;
    NormalizeKeepsPrefix(a, rest);
    assert rest[1..] == b;
    ConcatAssoc(a, " ", NormalizeNewlines(b));
  }

  /** A CRLF pair becomes one space, the text around it kept. */
  lemma NormalizeCrLf(a: string, b: string)
    requires '\n' !in a
    ensures NormalizeNewlines(a + "\r\n" + b) == a + " " + NormalizeNewlines(b)
  {
    var rest := ['\r', '\n'] + b;
    assert a + "\r\n" + b == a + rest;
    NormalizeKeepsPrefix(a, rest);
    assert rest[0] == '\r' && rest[1] == '\n' && rest[2..] == b;
    ConcatAssoc(a, " ", NormalizeNewlines(b));
  }

  /** The "What it is" cell: the description with its line feeds replaced, trimmed; `''` when absent. */
  function DescriptionCell(d: Option<string>): (r: string)
    ensures '\n' !in r
    ensures r == [] || (!IsJsWhitespace(r[0]) && !IsJsWhitespace(r[|r| - 1]))
    ensures d.None? ==> r == ""
    ensures d.Some? ==> r == Trim(NormalizeNewlines(d.value))
  {
    Trim(NormalizeNewlines(d.GetOr("")))
  }

  /** The Stars cell: the count when it is a number, otherwise 0. */
  function StarsCell(n: Option<int>): (r: string)
    ensures n.None? ==> r == "0"
    ensures n.Some? && n.value >= 0 ==> r == NatToString(n.value) && ParseNat(r) == n.value
    ensures n.Some? && n.value < 0 ==> r == "-" + NatToString(-n.value) && ParseNat(r[1..]) == -n.value
  {
    var v := n.GetOr(0);
    if v >= 0 then ParseNatToString(v); IntToString(v)
    else ParseNatToString(-v); IntToString(v)
  }

  /** The "Last push" cell: `''` when `pushed_at` is absent or empty. */
  function PushedCell(p: Option<string>): (r: string)
    ensures p.None? || p.value == "" ==> r == ""
    ensures p.Some? && |p.value| >= 10 ==> r == p.value[..10]
  {
    if p.Some? && p.value != "" then IsoDate(p.value) else ""
  }

  function Backticked(t: string): string
  {
    "`" + t + "`"
  }

  function AllBackticked(ts: seq<string>): (r: seq<string>)
    ensures |r| == |ts|
  {
    seq(|ts|, i requires 0 <= i < |ts| => Backticked(ts[i]))
  }

  /** The Topics cell: the first six topics in backticks, separated by single spaces. */
  function TopicsCell(ts: Option<seq<string>>): (r: string)
    ensures ts.None? || |ts.value| == 0 ==> r == ""
  {
    if ts.Some? && |ts.value| > 0 then Join(AllBackticked(ts.value[..Min(6, |ts.value|)]), " ") else ""
  }

  /**
   * Splitting a topics cell at spaces gives back at most six words, the
   * topics in order, each in backticks (for topics without spaces).
   */
  lemma TopicsCellWords(ts: seq<string>)
    requires |ts| > 0
    requires forall i :: 0 <= i < |ts| ==> ' ' !in ts[i]
    ensures var words := Split(TopicsCell(Some(ts)), ' ');
      && |words| == Min(6, |ts|)
      && forall i :: 0 <= i < |words| ==> words[i] == "`" + ts[i] + "`"
  {
    var parts := AllBackticked(ts[..Min(6, |ts|)]);
    forall i | 0 <= i < |parts|
      ensures ' ' !in parts[i]
    {
      assert parts[i] == "`" + ts[i] + "`";
    }
    SplitJoin(parts, ' ');
  }

  /** The fields other than the description hold no line feed. */
  predicate OneLineFields(r: Repo)
  {
    && '\n' !in r.name && '\n' !in r.htmlUrl
    && (r.language.Some? ==> '\n' !in r.language.value)
    && (r.pushedAt.Some? ==> '\n' !in r.pushedAt.value)
    && (r.topics.Some? ==> forall i :: 0 <= i < |r.topics.value| ==> '\n' !in r.topics.value[i])
  }

  lemma NatToStringOneLine(n: nat)
    ensures '\n' !in NatToString(n)
  {
  }

  /**
   * `formatRepoRow`. A row holds no line feed, whatever line feeds the
   * description held; a lone carriage return in it survives.
   */
  function FormatRepoRow(r: Repo): (row: string)
    ensures OneLineFields(r) ==> '\n' !in row
  {
    var row := "| [`" + r.name + "`](" + r.htmlUrl + ") | " + DescriptionCell(r.description)
      + " | " + r.language.GetOr("") + " | \U{2B50} " + StarsCell(r.stars)
      + " | " + PushedCell(r.pushedAt) + " | " + TopicsCell(r.topics) + " |";
    if OneLineFields(r) then
      StarsCellOneLine(r.stars);
      TopicsCellOneLine(r.topics);
      PushedCellOneLine(r.pushedAt);
      RowPiecesOneLine(r.name, r.htmlUrl, DescriptionCell(r.description), r.language.GetOr(""),
        StarsCell(r.stars), PushedCell(r.pushedAt), TopicsCell(r.topics));
      row
    else row
  }

  lemma StarsCellOneLine(n: Option<int>)
    ensures '\n' !in StarsCell(n)
  {
    var k := n.GetOr(0);
    NatToStringOneLine(if k < 0 then -k else k);
  }

  lemma TopicsCellOneLine(ts: Option<seq<string>>)
    requires ts.Some? ==> forall i :: 0 <= i < |ts.value| ==> '\n' !in ts.value[i]
    ensures '\n' !in TopicsCell(ts)
  {
    if ts.Some? && |ts.value| > 0 {
      var parts := AllBackticked(ts.value[..Min(6, |ts.value|)]);
      forall i | 0 <= i < |parts|
        ensures '\n' !in parts[i]
      {
        assert parts[i] == "`" + ts.value[i] + "`";
      }
      JoinExcludes(parts, " ", '\n');
    }
  }

  lemma PushedCellOneLine(p: Option<string>)
    requires p.Some? ==> '\n' !in p.value
    ensures '\n' !in PushedCell(p)
  {
    if p.Some? && p.value != "" {
      assert forall c :: c in IsoDate(p.value) ==> c in p.value;
    }
  }

  lemma RowPiecesOneLine(name: string, url: string, d: string, lang: string, stars: string, pushed: string, topics: string)
    requires '\n' !in name && '\n' !in url && '\n' !in d && '\n' !in lang
    requires '\n' !in stars && '\n' !in pushed && '\n' !in topics
    ensures '\n' !in "| [`" + name + "`](" + url + ") | " + d + " | " + lang + " | \U{2B50} " + stars
      + " | " + pushed + " | " + topics + " |"
  {
  }

  // ---------------------------------------------------------------------
  // renderTable
  // ---------------------------------------------------------------------

  const HeaderRow: string := "| Repo | What it is " + "| Lang | Stars " + "| Last push | Topics |"
  const AlignRow: string := "| --- | --- | --- " + "| ---: | --- | --- |"
  const NoRepos: string := "_No repos found._"

  function Rows(repos: seq<Repo>): (rows: seq<string>)
    ensures |rows| == |repos|
  {
    seq(|repos|, i requires 0 <= i < |repos| => FormatRepoRow(repos[i]))
  }

  /** `renderTable` */
  function RenderTable(repos: seq<Repo>): (t: string)
    ensures t == NoRepos <==> |repos| == 0
  {
    if |repos| == 0 then NoRepos
    else
      var lines := [HeaderRow, AlignRow] + Rows(repos);
      assert Join(lines, "\n")[0] == '|' by {
        assert Join(lines, "\n") == HeaderRow + "\n" + Join(lines[1..], "\n");
      }
      Join(lines, "\n")
  }

  lemma HeaderRowsOneLine()
    ensures '\n' !in HeaderRow && '\n' !in AlignRow
  {
  }

  /**
   * A non-empty table is the header row, the alignment row (Stars
   * right-aligned) and one row per repository in order, one per line.
   */
  lemma RenderTableLines(repos: seq<Repo>)
    requires |repos| > 0
    requires forall i :: 0 <= i < |repos| ==> OneLineFields(repos[i])
    ensures Split(RenderTable(repos), '\n') == [HeaderRow, AlignRow] + Rows(repos)
  {
    var rows := Rows(repos);
    var lines := [HeaderRow, AlignRow] + rows;
    forall i | 0 <= i < |rows|
      ensures '\n' !in rows[i]
    {
      assert rows[i] == FormatRepoRow(repos[i]);
    }
    HeaderRowsOneLine();
    forall i | 0 <= i < |lines|
      ensures '\n' !in lines[i]
    {
      if i >= 2 {
        assert lines[i] == rows[i - 2];
      }
    }
    SplitJoin(lines, '\n');
  }

  // ---------------------------------------------------------------------
  // listAllRepos
  // ---------------------------------------------------------------------

  /** A decoded API response: an array of records, or anything else. */
  datatype Page = NotArray | Batch(items: seq<Record>)

  /**
   * The response to page number k + 1. The API answers a page past the
   * last one with an empty array.
   */
  function FetchedPage(pages: seq<Page>, k: nat): Page
  {
    if k < |pages| then pages[k] else Batch([])
  }

  /** A page after which the loop asks for the next one. */
  predicate IsFull(p: Page)
  {
    p.Batch? && |p.items| >= PerPage
  }

  function ItemsOf(p: Page): seq<Record>
  {
    if p.Batch? then p.items else []
  }

  /** The records of the first n pages, in order. */
  function Accepted(pages: seq<Page>, n: nat): seq<Record>
  {
    if n == 0 then [] else Accepted(pages, n - 1) + ItemsOf(FetchedPage(pages, n - 1))
  }

  /**
   * `listAllRepos`: requests pages 1, 2, 3, ... while each page is full,
   * and returns the records of every page it requested.
   */
  method ListAllRepos(pages: seq<Page>) returns (all: seq<Record>, ghost requested: seq<nat>)
    ensures |requested| >= 1
    ensures forall k :: 0 <= k < |requested| ==> requested[k] == k + 1
    ensures forall k :: 0 <= k < |requested| - 1 ==> IsFull(FetchedPage(pages, k))
    ensures !IsFull(FetchedPage(pages, |requested| - 1))
    ensures all == Accepted(pages, |requested|)
    ensures all == Listed(pages)
  {
    all := [];
    requested := [];
    var page := 1;
    while true
      invariant 1 <= page <= |pages| + 1
      invariant |requested| == page - 1
      invariant forall k :: 0 <= k < |requested| ==> requested[k] == k + 1
      invariant forall k :: 0 <= k < page - 1 ==> IsFull(FetchedPage(pages, k))
      invariant all == Accepted(pages, page - 1)
      decreases |pages| + 1 - page
    {
      var batch := FetchedPage(pages, page - 1);
      requested := requested + [page];
      if !batch.Batch? || |batch.items| == 0 {
        break;
      }
      all := all + batch.items;
      if |batch.items| < PerPage {
        break;
      }
      page := page + 1;
    }
    RequestedPagesUnique(pages, |requested|, PagesRequested(pages, 0));
  }

  /** The number of pages requested: up to and including the first page that is not full. */
  function PagesRequested(pages: seq<Page>, k: nat): (n: nat)
    requires k <= |pages|
    ensures n > k
    ensures forall m :: k <= m < n - 1 ==> IsFull(FetchedPage(pages, m))
    ensures !IsFull(FetchedPage(pages, n - 1))
    decreases |pages| - k
  {
    if IsFull(FetchedPage(pages, k)) then PagesRequested(pages, k + 1) else k + 1
  }

  /** The records `listAllRepos` returns. */
  function Listed(pages: seq<Page>): seq<Record>
  {
    Accepted(pages, PagesRequested(pages, 0))
  }

  /** The stop rule fixes the number of pages: the first page that is not full is the last one asked for. */
  lemma RequestedPagesUnique(pages: seq<Page>, n: nat, m: nat)
    requires n >= 1 && m >= 1
    requires forall k :: 0 <= k < n - 1 ==> IsFull(FetchedPage(pages, k))
    requires !IsFull(FetchedPage(pages, n - 1))
    requires forall k :: 0 <= k < m - 1 ==> IsFull(FetchedPage(pages, k))
    requires !IsFull(FetchedPage(pages, m - 1))
    ensures n == m
  {
  }

  // ---------------------------------------------------------------------
  // main: filter, sort, partition
  // ---------------------------------------------------------------------

  /** `repos.filter((r) => r && r.private === false)` */
  function PublicOnly(rs: seq<Record>): (ps: seq<Repo>)
    ensures |ps| <= |rs|
    ensures forall r :: r in ps <==> Some(r) in rs && r.isPrivate == Some(false)
  {
    if |rs| == 0 then []
    else
      var rest := PublicOnly(rs[1..]);
      assert forall x :: x in rs[1..] ==> x in rs;
      assert forall x :: x in rs ==> x == rs[0] || x in rs[1..];
      if rs[0].Some? && rs[0].value.isPrivate == Some(false) then [rs[0].value] + rest else rest
  }

  /** Filtering works piece by piece, so it keeps the API order. */
  lemma {:induction false} PublicOnlyAppend(xs: seq<Record>, ys: seq<Record>)
    ensures PublicOnly(xs + ys) == PublicOnly(xs) + PublicOnly(ys)
  {
    if |xs| == 0 {
      assert xs + ys == ys;
    } else {
      assert (xs + ys)[0] == xs[0] && (xs + ys)[1..] == xs[1..] + ys;
      PublicOnlyAppend(xs[1..], ys);
    }
  }

  /**
   * Nothing comes from no records, and each further record contributes
   * its repository exactly when it is present and `private` is `false`.
   */
  lemma PublicOnlySnoc(rs: seq<Record>, x: Record)
    ensures PublicOnly([]) == []
    ensures PublicOnly(rs + [x]) == PublicOnly(rs) + (if x.Some? && x.value.isPrivate == Some(false) then [x.value] else [])
  {
    PublicOnlyAppend(rs, [x]);
    assert [x][1..] == [];
  }

  /** `(r.pushed_at || '')` */
  function PushKey(r: Repo): string
  {
    r.pushedAt.GetOr("")
  }

  /** The comparator of the sort: a goes first when its push time is later. */
  predicate PushedLater(a: Repo, b: Repo)
    ensures PushedLater(a, b) ==> !LexLess(PushKey(a), PushKey(b))
    ensures PushedLater(a, b) ==> PushKey(a) != "" && PushKey(a) != PushKey(b)
    ensures PushKey(a) != PushKey(b) ==> PushedLater(a, b) || LexLess(PushKey(a), PushKey(b))
  {
    var ka, kb := PushKey(a), PushKey(b);
    LexLessTotal(ka, kb);
    LexLessAsymmetric(kb, ka);
    LexLessIrreflexive(ka);
    EmptyIsLeast(kb);
    LexLess(kb, ka)
  }

  /** Later-push-first is a consistent comparator. */
  lemma PushedLaterConsistent()
    ensures StrictWeakOrder(PushedLater)
  {
    forall a: Repo
      ensures !PushedLater(a, a)
    {
      LexLessIrreflexive(PushKey(a));
    }
    forall a: Repo, b: Repo, c: Repo
      ensures Transitive3(PushedLater, a, b, c)
    {
      if PushedLater(a, b) && PushedLater(b, c) {
        LexLessTransitive(PushKey(c), PushKey(b), PushKey(a));
      }
    }
    forall a: Repo, b: Repo, c: Repo
      ensures NegativelyTransitive3(PushedLater, a, b, c)
    {
      var ka, kb, kc := PushKey(a), PushKey(b), PushKey(c);
      if !PushedLater(a, b) && !PushedLater(b, c) && PushedLater(a, c) {
        // ka <= kb <= kc, yet kc < ka
        LexLessTotal(ka, kb);
        LexLessTotal(kb, kc);
        if LexLess(ka, kb) {
          LexLessTransitive(kc, ka, kb);
          if LexLess(kb, kc) {
            LexLessTransitive(kb, kc, kb);
            LexLessIrreflexive(kb);
          } else {
            LexLessIrreflexive(kb);
          }
        } else if LexLess(kb, kc) {
          LexLessTransitive(kb, kc, ka);
          LexLessIrreflexive(kb);
        } else {
          LexLessIrreflexive(ka);
        }
      }
    }
  }

  /**
   * After the sort, push times never increase along the list, and the
   * records without a push time come last.
   */
  lemma SortedByPush(rs: seq<Repo>)
    ensures var t := Sort(rs, PushedLater);
      && multiset(t) == multiset(rs)
      && (forall i, j :: 0 <= i < j < |t| ==> !LexLess(PushKey(t[i]), PushKey(t[j])))
      && (forall i, j :: 0 <= i < j < |t| && PushKey(t[i]) == "" ==> PushKey(t[j]) == "")
  {
    var t := Sort(rs, PushedLater);
    PushedLaterConsistent();
    SortIsPermutation(rs, PushedLater);
    SortIsSorted(rs, PushedLater);
    forall i, j | 0 <= i < j < |t| && PushKey(t[i]) == ""
      ensures PushKey(t[j]) == ""
    {
      assert !PushedLater(t[j], t[i]);
      EmptyIsLeast(PushKey(t[j]));
    }
  }

  /** Records with the same push time keep their API order. */
  lemma SortKeepsTies(rs: seq<Repo>, x: Repo)
    ensures TiedWith(Sort(rs, PushedLater), x, PushedLater) == TiedWith(rs, x, PushedLater)
  {
    PushedLaterConsistent();
    SortIsStable(rs, x, PushedLater);
  }

  /** Equal push times are exactly the ties of the comparator. */
  lemma TiedIffSamePush(a: Repo, b: Repo)
    ensures Tied(PushedLater, a, b) <==> PushKey(a) == PushKey(b)
  {
    LexLessTotal(PushKey(a), PushKey(b));
    LexLessIrreflexive(PushKey(a));
  }

  /** `pushedAt >= cutoff`, with a missing or empty `pushed_at` never active. */
  predicate IsActive(r: Repo, cutoff: string)
  {
    r.pushedAt.Some? && r.pushedAt.value != "" && !LexLess(r.pushedAt.value, cutoff)
  }

  /** The active repositories, in list order. */
  function Active(rs: seq<Repo>, cutoff: string): (r: seq<Repo>)
    ensures |r| <= |rs|
    ensures forall k :: 0 <= k < |r| ==> IsActive(r[k], cutoff)
  {
    if |rs| == 0 then []
    else
      var init, last := rs[..|rs| - 1], rs[|rs| - 1];
      assert rs == init + [last];
      Active(init, cutoff) + (if IsActive(last, cutoff) then [last] else [])
  }

  /** The inactive repositories, in list order. */
  function Inactive(rs: seq<Repo>, cutoff: string): (r: seq<Repo>)
    ensures |r| <= |rs|
    ensures forall k :: 0 <= k < |r| ==> !IsActive(r[k], cutoff)
  {
    if |rs| == 0 then []
    else
      var init, last := rs[..|rs| - 1], rs[|rs| - 1];
      assert rs == init + [last];
      Inactive(init, cutoff) + (if IsActive(last, cutoff) then [] else [last])
  }

  /** The `for (const r of publicRepos)` loop. */
  method Partition(rs: seq<Repo>, cutoff: string) returns (active: seq<Repo>, inactive: seq<Repo>)
    ensures active == Active(rs, cutoff) && inactive == Inactive(rs, cutoff)
  {
    active, inactive := [], [];
    for i := 0 to |rs|
      invariant active == Active(rs[..i], cutoff) && inactive == Inactive(rs[..i], cutoff)
    {
      assert rs[..i + 1][..i] == rs[..i];
      var r := rs[i];
      if r.pushedAt.None? || r.pushedAt.value == "" {
        inactive := inactive + [r];
        continue;
      }
      if !LexLess(r.pushedAt.value, cutoff) {
        active := active + [r];
      } else {
        inactive := inactive + [r];
      }
    }
    assert rs[..|rs|] == rs;
  }

  /** Every repository lands in exactly one of the two lists. */
  lemma {:induction false} PartitionCovers(rs: seq<Repo>, cutoff: string)
    ensures multiset(Active(rs, cutoff)) + multiset(Inactive(rs, cutoff)) == multiset(rs)
  {
    if |rs| > 0 {
      var init, last := rs[..|rs| - 1], rs[|rs| - 1];
      PartitionCovers(init, cutoff);
      PartitionStep(rs, cutoff);
      CoverStep(Active(init, cutoff), Inactive(init, cutoff), IsActive(last, cutoff),
        Active(rs, cutoff), Inactive(rs, cutoff), rs);
    }
  }

  lemma CoverStep<T>(a: seq<T>, b: seq<T>, active: bool, a': seq<T>, b': seq<T>, all: seq<T>)
    requires |all| > 0 && multiset(a) + multiset(b) == multiset(all[..|all| - 1])
    requires a' == a + (if active then [all[|all| - 1]] else [])
    requires b' == b + (if active then [] else [all[|all| - 1]])
    ensures multiset(a') + multiset(b') == multiset(all)
  {
    assert all == all[..|all| - 1] + [all[|all| - 1]];
  }

  /**
   * A repository is in the active list exactly when it is in the input
   * and active, and in the inactive list exactly when it is in the input
   * and not active.
   */
  lemma PartitionSides(rs: seq<Repo>, cutoff: string)
    ensures forall x :: x in Active(rs, cutoff) <==> x in rs && IsActive(x, cutoff)
    ensures forall x :: x in Inactive(rs, cutoff) <==> x in rs && !IsActive(x, cutoff)
  {
    var a, i := Active(rs, cutoff), Inactive(rs, cutoff);
    PartitionCovers(rs, cutoff);
    forall x
      ensures (x in a <==> x in rs && IsActive(x, cutoff)) && (x in i <==> x in rs && !IsActive(x, cutoff))
    {
      assert x in rs <==> x in multiset(a) + multiset(i);
      if x in a {
        var k :| 0 <= k < |a| && a[k] == x;
      }
      if x in i {
        var k :| 0 <= k < |i| && i[k] == x;
      }
    }
  }

  /** A push exactly at the cutoff counts as active; no push means inactive. */
  lemma CutoffBoundary(r: Repo, cutoff: string)
    ensures r.pushedAt == Some(cutoff) && cutoff != "" ==> IsActive(r, cutoff)
    ensures r.pushedAt.None? ==> !IsActive(r, cutoff)
  {
    LexLessIrreflexive(cutoff);
  }

  /**
   * On a list sorted newest push first, the partition splits it in two:
   * the active repositories are a prefix and the inactive ones the rest.
   */
  lemma PartitionSplitsSorted(rs: seq<Repo>, cutoff: string)
    requires SortedBy(rs, PushedLater)
    ensures Active(rs, cutoff) + Inactive(rs, cutoff) == rs
  {
    forall i, j | 0 <= i < j < |rs| && IsActive(rs[j], cutoff)
      ensures IsActive(rs[i], cutoff)
    {
      assert !PushedLater(rs[j], rs[i]);
      ActiveBeforeActive(rs[i], rs[j], cutoff);
    }
    PartitionSplits(rs, cutoff);
  }

  /** When no inactive repository comes before an active one, the two lists are a split of the input. */
  lemma {:induction false} PartitionSplits(rs: seq<Repo>, cutoff: string)
    requires forall i, j :: 0 <= i < j < |rs| && IsActive(rs[j], cutoff) ==> IsActive(rs[i], cutoff)
    ensures Active(rs, cutoff) + Inactive(rs, cutoff) == rs
  {
    if |rs| > 0 {
      var init, last := rs[..|rs| - 1], rs[|rs| - 1];
      assert forall i :: 0 <= i < |init| ==> init[i] == rs[i];
      PartitionSplits(init, cutoff);
      if IsActive(last, cutoff) {
        assert forall i :: 0 <= i < |init| ==> IsActive(init[i], cutoff);
        AllActive(init, cutoff);
      }
      PartitionStep(rs, cutoff);
      SplitStep(Active(init, cutoff), Inactive(init, cutoff), IsActive(last, cutoff),
        Active(rs, cutoff), Inactive(rs, cutoff), rs);
    }
  }

  /** One more repository goes to the end of exactly one of the two lists. */
  lemma PartitionStep(rs: seq<Repo>, cutoff: string)
    requires |rs| > 0
    ensures var init, last := rs[..|rs| - 1], rs[|rs| - 1];
      && Active(rs, cutoff) == Active(init, cutoff) + (if IsActive(last, cutoff) then [last] else [])
      && Inactive(rs, cutoff) == Inactive(init, cutoff) + (if IsActive(last, cutoff) then [] else [last])
  {
  }

  lemma SplitStep<T>(a: seq<T>, b: seq<T>, active: bool, a': seq<T>, b': seq<T>, all: seq<T>)
    requires |all| > 0 && a + b == all[..|all| - 1]
    requires active ==> a == all[..|all| - 1] && b == []
    requires a' == a + (if active then [all[|all| - 1]] else [])
    requires b' == b + (if active then [] else [all[|all| - 1]])
    ensures a' + b' == all
  {
    var last := all[|all| - 1];
    if !active {
      ConcatAssoc(a, b, [last]);
    }
    assert all == all[..|all| - 1] + [last];
  }

  /** A repository pushed no earlier than an active one is active too. */
  lemma ActiveBeforeActive(a: Repo, b: Repo, cutoff: string)
    requires !PushedLater(b, a) && IsActive(b, cutoff)
    ensures IsActive(a, cutoff)
  {
    var k := PushKey(a);
    LexLessTotal(PushKey(b), k);
    EmptyIsLeast(PushKey(b));
    if LexLess(k, cutoff) && LexLess(PushKey(b), k) {
      LexLessTransitive(PushKey(b), k, cutoff);
    }
  }

  lemma {:induction false} AllActive(rs: seq<Repo>, cutoff: string)
    requires forall i :: 0 <= i < |rs| ==> IsActive(rs[i], cutoff)
    ensures Active(rs, cutoff) == rs && Inactive(rs, cutoff) == []
  {
    if |rs| > 0 {
      var init, last := rs[..|rs| - 1], rs[|rs| - 1];
      assert forall i :: 0 <= i < |init| ==> init[i] == rs[i];
      AllActive(init, cutoff);
      PartitionStep(rs, cutoff);
      assert IsActive(last, cutoff);
      SplitStep(init, [], true, Active(rs, cutoff), Inactive(rs, cutoff), rs);
    }
  }

  // ---------------------------------------------------------------------
  // main: the rendered README
  // ---------------------------------------------------------------------

  const DetailsOpen: string := "<details>"
  const Summary: string := "<summary>Show inactive repos</summary>"
  const DetailsClose: string := "</details>"

  /**
   * The inactive table folded into a `<details>` block: the opening tag,
   * the summary line, a blank line, the table and the closing tag.
   */
  function InactiveBlock(table: string): (block: string)
    ensures block == DetailsOpen + "\n" + Summary + "\n\n" + table + "\n" + DetailsClose
  {
    var parts := [DetailsOpen, Summary, "", table, DetailsClose];
    var j3 := table + "\n" + DetailsClose;
    assert Join(parts[3..], "\n") == j3 by {
      assert parts[3..][1..] == [DetailsClose];
    }
    assert Join(parts[2..], "\n") == "" + "\n" + j3 by {
      assert parts[2..][1..] == parts[3..];
    }
    assert Join(parts[1..], "\n") == Summary + "\n" + ("\n" + j3) by {
      assert parts[1..][1..] == parts[2..];
    }
    assert Join(parts, "\n") == DetailsOpen + "\n" + (Summary + "\n" + ("\n" + j3));
    Join(parts, "\n")
  }

  /**
   * `${now.toISOString().slice(0, 16).replace('T', ' ')} UTC`: for an ISO
   * timestamp `YYYY-MM-DDTHH:MM...` the stamp is `YYYY-MM-DD HH:MM UTC`.
   */
  function UpdatedAt(nowIso: string): (stamp: string)
    ensures |stamp| == Min(16, |nowIso|) + 4
    ensures |nowIso| >= 16 && nowIso[10] == 'T' && 'T' !in nowIso[..10] ==>
      stamp == nowIso[..10] + " " + nowIso[11..16] + " UTC"
  {
    var head := nowIso[..Min(16, |nowIso|)];
    var stamp := ReplaceFirst(head, "T", " ") + " UTC";
    if |nowIso| >= 16 && nowIso[10] == 'T' && 'T' !in nowIso[..10] then
      assert head == nowIso[..10] + "T" + nowIso[11..16];
      ReplaceFirstAt(nowIso[..10], "T", nowIso[11..16], " ");
      stamp
    else stamp
  }

  const ActivePlaceholder: string := "{{ACTIVE_REPOS}}"
  const InactivePlaceholder: string := "{{INACTIVE_REPOS}}"
  const UpdatedPlaceholder: string := "{{UPDATED_AT}}"

  /**
   * The three chained `template.replace(...)` calls, as written. A
   * template without the placeholders comes back as it is; when the
   * inserted texts hold no `$`, each is inserted verbatim.
   */
  function Render(template: string, activeTable: string, inactiveBlock: string, updatedAt: string): (r: string)
    ensures NoPlaceholder(template) ==> r == template
    ensures '$' !in activeTable && '$' !in inactiveBlock && '$' !in updatedAt ==>
      r == RenderLiteral(template, activeTable, inactiveBlock, updatedAt)
  {
    var t1 := ReplaceFirst(template, ActivePlaceholder, activeTable);
    var t2 := ReplaceFirst(t1, InactivePlaceholder, inactiveBlock);
    var r := ReplaceFirst(t2, UpdatedPlaceholder, updatedAt);
    if '$' !in activeTable && '$' !in inactiveBlock && '$' !in updatedAt then
      ReplaceFirstAgrees(template, ActivePlaceholder, activeTable);
      ReplaceFirstAgrees(t1, InactivePlaceholder, inactiveBlock);
      ReplaceFirstAgrees(t2, UpdatedPlaceholder, updatedAt);
      r
    else r
  }

  /** None of the three placeholders occurs. */
  predicate NoPlaceholder(template: string)
  {
    && IndexOf(template, ActivePlaceholder).None?
    && IndexOf(template, InactivePlaceholder).None?
    && IndexOf(template, UpdatedPlaceholder).None?
  }

  /**
   * A replacement that contains `$&` does not insert itself: it inserts
   * the placeholder it replaces, which then stays in the output.
   */
  lemma RenderExpandsDollarPatterns()
    ensures Render(ActivePlaceholder, "$&", "", "") == ActivePlaceholder
  {
    var p := ActivePlaceholder;
    var t1 := ReplaceFirst(p, p, "$&");
    assert t1 == p by {
      ReplaceFirstAt("", p, "", "$&");
      assert "" + p + "" == p;
      assert Substitution("$&", p, "", "") == p + Substitution("", p, "", "");
    }
    var t2 := ReplaceFirst(t1, InactivePlaceholder, "");
    assert t2 == p by {
      assert IndexOf(p, InactivePlaceholder).None?;
    }
    assert ReplaceFirst(t2, UpdatedPlaceholder, "") == p by {
      PlaceholderLetters();
      MismatchAt(p, UpdatedPlaceholder, 0, 2);
      MismatchAt(p, UpdatedPlaceholder, 1, 1);
      MismatchAt(p, UpdatedPlaceholder, 2, 0);
      assert IndexOf(p, UpdatedPlaceholder).None?;
    }
  }

  lemma PlaceholderLetters()
    ensures |ActivePlaceholder| == 16 && ActivePlaceholder[2] == 'A'
    ensures |UpdatedPlaceholder| == 14
    ensures UpdatedPlaceholder[0] == '{' && UpdatedPlaceholder[1] == '{' && UpdatedPlaceholder[2] == 'U'
  {
  }

  /** First-occurrence replacement that inserts the replacement text verbatim. */
  function ReplaceFirstLiteral(s: string, pat: string, rep: string): (r: string)
    ensures IndexOf(s, pat).None? ==> r == s
    ensures IndexOf(s, pat).Some? ==> var i := IndexOf(s, pat).value; r == s[..i] + rep + s[i + |pat|..]
  {
    match IndexOf(s, pat)
    case None => s
    case Some(i) => s[..i] + rep + s[i + |pat|..]
  }

  /**
   * The substitution with the tables and the stamp inserted verbatim; a
   * template without the placeholders comes back as it is.
   */
  function RenderLiteral(template: string, activeTable: string, inactiveBlock: string, updatedAt: string): (r: string)
    ensures NoPlaceholder(template) ==> r == template
  {
    ReplaceFirstLiteral(
      ReplaceFirstLiteral(
        ReplaceFirstLiteral(template, ActivePlaceholder, activeTable),
        InactivePlaceholder, inactiveBlock),
      UpdatedPlaceholder, updatedAt)
  }

  lemma ReplaceFirstAgrees(s: string, pat: string, rep: string)
    requires '$' !in rep
    ensures ReplaceFirst(s, pat, rep) == ReplaceFirstLiteral(s, pat, rep)
  {
  }

  /**
   * When the first occurrence of `pat` in `pre + pat` is the one after
   * `pre`, whatever follows does not matter: that occurrence is replaced.
   */
  lemma ReplaceFirstLiteralAt(pre: string, pat: string, post: string, rep: string)
    requires IndexOf(pre + pat, pat) == Some(|pre|)
    ensures IndexOf(pre + pat + post, pat) == Some(|pre|)
    ensures ReplaceFirstLiteral(pre + pat + post, pat, rep) == pre + rep + post
  {
    var h := pre + pat;
    var s := h + post;
    assert OccursAt(s, pat, |pre|) by {
      assert s[|pre|..|pre| + |pat|] == pat;
    }
    forall k | 0 <= k < |pre|
      ensures !OccursAt(s, pat, k)
    {
      assert !OccursAt(h, pat, k);
      if k + |pat| <= |s| {
        assert s[k..k + |pat|] == h[k..k + |pat|];
      }
    }
    assert s[..|pre|] == pre && s[|pre| + |pat|..] == post;
  }

  /**
   * Each placeholder is replaced once, at its first occurrence, in the
   * order active, inactive, updated; later copies of a placeholder stay.
   * The slots are the first occurrences in the text as it stands when
   * that placeholder's turn comes: no copy starts earlier, in the
   * template or in a table inserted before it.
   */
  lemma RenderFillsTemplate(p0: string, p1: string, p2: string, p3: string, a: string, i: string, u: string)
    requires IndexOf(p0 + ActivePlaceholder, ActivePlaceholder) == Some(|p0|)
    requires IndexOf(p0 + a + p1 + InactivePlaceholder, InactivePlaceholder) == Some(|p0 + a + p1|)
    requires IndexOf(p0 + a + p1 + i + p2 + UpdatedPlaceholder, UpdatedPlaceholder) == Some(|p0 + a + p1 + i + p2|)
    ensures RenderLiteral(p0 + ActivePlaceholder + p1 + InactivePlaceholder + p2 + UpdatedPlaceholder + p3, a, i, u)
         == p0 + a + p1 + i + p2 + u + p3
  {
    var rest2 := p2 + UpdatedPlaceholder + p3;
    var rest1 := p1 + InactivePlaceholder + rest2;
    var pre2 := p0 + a + p1;
    var pre3 := pre2 + i + p2;
    assert p0 + ActivePlaceholder + p1 + InactivePlaceholder + p2 + UpdatedPlaceholder + p3
        == p0 + ActivePlaceholder + rest1 by {
      ConcatAssoc(p0 + ActivePlaceholder + p1 + InactivePlaceholder, p2 + UpdatedPlaceholder, p3);
      ConcatAssoc(p0 + ActivePlaceholder + p1 + InactivePlaceholder, p2, UpdatedPlaceholder);
      ConcatAssoc(p0 + ActivePlaceholder + p1, InactivePlaceholder, rest2);
      ConcatAssoc(p0 + ActivePlaceholder, p1, InactivePlaceholder + rest2);
      ConcatAssoc(p1, InactivePlaceholder, rest2);
    }
    ReplaceFirstLiteralAt(p0, ActivePlaceholder, rest1, a);
    assert p0 + a + rest1 == pre2 + InactivePlaceholder + rest2 by {
      ConcatAssoc(p1, InactivePlaceholder, rest2);
      ConcatAssoc(p0 + a, p1, InactivePlaceholder + rest2);
      ConcatAssoc(p0 + a + p1, InactivePlaceholder, rest2);
    }
    ReplaceFirstLiteralAt(pre2, InactivePlaceholder, rest2, i);
    assert pre2 + i + rest2 == pre3 + UpdatedPlaceholder + p3 by {
      ConcatAssoc(p2, UpdatedPlaceholder, p3);
      ConcatAssoc(pre2 + i, p2, UpdatedPlaceholder + p3);
      ConcatAssoc(pre2 + i + p2, UpdatedPlaceholder, p3);
    }
    ReplaceFirstLiteralAt(pre3, UpdatedPlaceholder, p3, u);
  }

  /**
   * `main` from the fetched pages to the rendered README: filter, sort
   * in place, partition, tables, substitution. The tables and the stamp
   * are inserted verbatim; whenever they hold no `$`, this is exactly what
   * the chained `replace` calls as written produce.
   */
  method UpdateReadme(pages: seq<Page>, cutoff: string, nowIso: string, template: string) returns (rendered: string)
    ensures var sorted := Sort(PublicOnly(Listed(pages)), PushedLater);
      var a, i, u := RenderTable(Active(sorted, cutoff)), InactiveBlock(RenderTable(Inactive(sorted, cutoff))), UpdatedAt(nowIso);
      && rendered == RenderLiteral(template, a, i, u)
      && ('$' !in a && '$' !in i && '$' !in u ==> rendered == Render(template, a, i, u))
  {
    var repos;
    ghost var requested;
    repos, requested := ListAllRepos(pages);
    var publicRepos := PublicOnly(repos);
    var a := new Repo[|publicRepos|](i requires 0 <= i < |publicRepos| => publicRepos[i]);
    assert a[..] == publicRepos;
    SortInPlace(a, PushedLater);
    var active, inactive := Partition(a[..], cutoff);
    var activeTable := RenderTable(active);
    var inactiveTable := InactiveBlock(RenderTable(inactive));
    var updatedAt := UpdatedAt(nowIso);
    rendered := RenderLiteral(template, activeTable, inactiveTable, updatedAt);
  }

  /**
   * The two tables list every public repository exactly once, newest push
   * first, the active ones ahead of the inactive ones.
   */
  lemma TablesListEveryPublicRepo(pages: seq<Page>, cutoff: string)
    ensures var sorted := Sort(PublicOnly(Listed(pages)), PushedLater);
      && Active(sorted, cutoff) + Inactive(sorted, cutoff) == sorted
      && multiset(sorted) == multiset(PublicOnly(Listed(pages)))
  {
    var rs := PublicOnly(Listed(pages));
    PushedLaterConsistent();
    SortIsSorted(rs, PushedLater);
    SortIsPermutation(rs, PushedLater);
    PartitionSplitsSorted(Sort(rs, PushedLater), cutoff);
  }
}
