/** Paging through GitHub's repository search (data/github/01_get_repos.py):
    the `link` and rate-limit headers, the search query that restarts below
    the last star count once GitHub's 1000-result window is used up, the
    page files written to disk, and how an interrupted run resumes. The
    HTTP requests, the sleeps and the file contents are inputs. */
module GetRepos {
  import opened Wrappers
  import opened Strings
  import opened Collate

  // ---------------------------------------------------------------------
  // The `link` header

  /** What separates a link's URL from its relation name. */
  const LinkSep: string := ">; rel=\""

  /** One link as GitHub writes it: `<url>; rel="name"`. */
  function LinkItem(url: string, rel: string): string {
    "<" + url + (LinkSep + (rel + "\""))
  }

  /** One link, loosely parsed as the script does: the text after the
      separator without its last character is the relation, the text before
      it without its first character is the URL. `None` where indexing the
      missing second part raises. */
  function ParseLink(link: string): (r: Option<(string, string)>)
    ensures r.None? <==> |SplitOn(link, LinkSep)| < 2
    ensures r.Some? ==> r.value == (DropLast(SplitOn(link, LinkSep)[1]), DropFirst(SplitOn(link, LinkSep)[0]))
  {
    var parts := SplitOn(link, LinkSep);
    if |parts| < 2 then None else Some((DropLast(parts[1]), DropFirst(parts[0])))
  }

  /** A link whose URL and relation hold no `>` parses back to them. */
  lemma ParseLinkItem(url: string, rel: string)
    requires '>' !in url && '>' !in rel
    ensures ParseLink(LinkItem(url, rel)) == Some((rel, url))
  {
    assert LinkSep[0] == '>';
    assert '>' !in "<" + url;
    assert LinkItem(url, rel) == ("<" + url) + LinkSep + (rel + "\"");
    SplitOnFirst("<" + url, LinkSep, rel + "\"");
    assert '>' !in rel + "\"";
    SplitOnNone(rel + "\"", LinkSep);
    assert SplitOn(LinkItem(url, rel), LinkSep) == ["<" + url, rel + "\""];
    assert DropLast(rel + "\"") == rel;
    assert DropFirst("<" + url) == url;
  }

  /** Every link of the header, parsed to `(relation, url)`; `None` if one
      of them does not parse. */
  function ParseLinkItems(items: seq<string>): (r: Option<seq<(string, string)>>)
    ensures r.Some? <==> forall k :: 0 <= k < |items| ==> ParseLink(items[k]).Some?
    ensures r.Some? ==> |r.value| == |items| && forall k :: 0 <= k < |items| ==> r.value[k] == ParseLink(items[k]).value
  {
    MapAll(items, ParseLink)
  }

  /** `parse_link_header`: split at `", "`, parse each link, bind. */
  function ParseLinkHeader(header: string): (r: Option<map<string, string>>)
    ensures r.Some? <==> ParseLinkItems(SplitOn(header, ", ")).Some?
    ensures r.Some? ==> forall rel ::
      (rel in r.value <==> LastValue(ParseLinkItems(SplitOn(header, ", ")).value, rel).Some?)
      && (rel in r.value ==> r.value[rel] == LastValue(ParseLinkItems(SplitOn(header, ", ")).value, rel).value)
  {
    match ParseLinkItems(SplitOn(header, ", "))
    case None => None
    case Some(pairs) =>
      assert forall rel ::
        (rel in Bind(pairs) <==> LastValue(pairs, rel).Some?)
        && (rel in Bind(pairs) ==> Bind(pairs)[rel] == LastValue(pairs, rel).value) by {
        forall rel ensures (rel in Bind(pairs) <==> LastValue(pairs, rel).Some?)
          && (rel in Bind(pairs) ==> Bind(pairs)[rel] == LastValue(pairs, rel).value) {
          BindKeepsLast(pairs, rel);
        }
      }
      Some(Bind(pairs))
  }

  /** The links GitHub sends for `(relation, url)` pairs. */
  function LinkItems(links: seq<(string, string)>): (items: seq<string>)
    ensures |items| == |links|
  {
    seq(|links|, k requires 0 <= k < |links| => LinkItem(links[k].1, links[k].0))
  }

  /** The header GitHub sends for `(relation, url)` pairs. */
  function RenderLinks(links: seq<(string, string)>): string {
    JoinOn(LinkItems(links), ", ")
  }

  predicate PlainLinkText(s: string) {
    '>' !in s && ',' !in s
  }

  lemma LinkItemsParse(links: seq<(string, string)>)
    requires forall k :: 0 <= k < |links| ==> PlainLinkText(links[k].0) && PlainLinkText(links[k].1)
    ensures forall k :: 0 <= k < |links| ==> ',' !in LinkItems(links)[k]
    ensures ParseLinkItems(LinkItems(links)) == Some(links)
  {
    var items := LinkItems(links);
    forall k | 0 <= k < |items|
      ensures ',' !in items[k] && ParseLink(items[k]) == Some(links[k])
    {
      PlainLinkItem(links[k].1, links[k].0);
    }
    assert ParseLinkItems(items).value == links;
  }

  /** A link of plain text holds no comma and parses back. */
  lemma PlainLinkItem(url: string, rel: string)
    requires PlainLinkText(rel) && PlainLinkText(url)
    ensures ',' !in LinkItem(url, rel) && ParseLink(LinkItem(url, rel)) == Some((rel, url))
  {
    ParseLinkItem(url, rel);
    assert ',' !in "<" + url;
    assert ',' !in LinkSep;
    assert ',' !in LinkSep + (rel + "\"");
  }

  /** A header of links whose text holds no `>` or `,` is read back as the
      links it lists. */
  lemma LinkHeaderRoundTrip(links: seq<(string, string)>)
    requires |links| >= 1
    requires forall k :: 0 <= k < |links| ==> PlainLinkText(links[k].0) && PlainLinkText(links[k].1)
    ensures ParseLinkItems(SplitOn(RenderLinks(links), ", ")) == Some(links)
    ensures ParseLinkHeader(RenderLinks(links)) == Some(Bind(links))
  {
    LinkItemsParse(links);
    assert ", "[0] == ',';
    SplitOnJoinOn(LinkItems(links), ", ");
  }

  /** A header with two relations gives both. */
  lemma TwoLinks()
    ensures ParseLinkHeader(RenderLinks([("a", "u1"), ("b", "u2")])) == Some(map["a" := "u1", "b" := "u2"])
  {
    var links := [("a", "u1"), ("b", "u2")];
    LinkHeaderRoundTrip(links);
    assert links[..1] == [("a", "u1")];
    assert links[..1][..0] == [];
  }

  /** A repeated relation keeps the URL of its last link. */
  lemma RepeatedRelKeepsLast()
    ensures ParseLinkHeader(RenderLinks([("a", "u1"), ("a", "u2")])) == Some(map["a" := "u2"])
  {
    var links := [("a", "u1"), ("a", "u2")];
    assert Bind(links) == map["a" := "u2"] by {
      assert links[..1] == [("a", "u1")];
      assert links[..1][..0] == [];
      assert Bind(links[..1]) == map["a" := "u1"];
      assert map["a" := "u1"]["a" := "u2"] == map["a" := "u2"];
    }
    LinkHeaderRoundTrip(links);
  }

  /** `request`'s handling of the header: none, or empty, means no links. */
  function LinksOf(header: Option<string>): (r: Option<map<string, string>>)
    ensures header.None? || header == Some("") ==> r == Some(map[])
    ensures header.Some? && header.value != "" ==> r == ParseLinkHeader(header.value)
  {
    if header.None? || header.value == "" then Some(map[]) else ParseLinkHeader(header.value)
  }

  // ---------------------------------------------------------------------
  // Rate limits

  datatype RateLimit = RateLimit(limit: nat, remaining: nat, reset: nat, resource: string, used: nat)

  /** A header's integer value: `None` when it is missing or not a number. */
  function IntHeader(headers: map<string, string>, name: string): Option<nat> {
    if name in headers then ParseNat(headers[name]) else None
  }

  /** `parse_rate_limit`: four integer headers and the resource name. */
  function ParseRateLimit(headers: map<string, string>): (r: Option<RateLimit>)
    ensures r.Some? <==>
      && IntHeader(headers, "x-ratelimit-limit").Some?
      && IntHeader(headers, "x-ratelimit-remaining").Some?
      && IntHeader(headers, "x-ratelimit-reset").Some?
      && "x-ratelimit-resource" in headers
      && IntHeader(headers, "x-ratelimit-used").Some?
    ensures r.Some? ==>
      && r.value.limit == ParseNat(headers["x-ratelimit-limit"]).value
      && r.value.remaining == ParseNat(headers["x-ratelimit-remaining"]).value
      && r.value.reset == ParseNat(headers["x-ratelimit-reset"]).value
      && r.value.resource == headers["x-ratelimit-resource"]
      && r.value.used == ParseNat(headers["x-ratelimit-used"]).value
  {
    var limit :- IntHeader(headers, "x-ratelimit-limit");
    var remaining :- IntHeader(headers, "x-ratelimit-remaining");
    var reset :- IntHeader(headers, "x-ratelimit-reset");
    if "x-ratelimit-resource" !in headers then None
    else
      var used :- IntHeader(headers, "x-ratelimit-used");
      Some(RateLimit(limit, remaining, reset, headers["x-ratelimit-resource"], used))
  }

  /** The headers GitHub sends for a rate limit. */
  function RateLimitHeaders(rl: RateLimit): map<string, string> {
    map["x-ratelimit-limit" := NatToDecimal(rl.limit),
        "x-ratelimit-remaining" := NatToDecimal(rl.remaining),
        "x-ratelimit-reset" := NatToDecimal(rl.reset),
        "x-ratelimit-resource" := rl.resource,
        "x-ratelimit-used" := NatToDecimal(rl.used)]
  }

  /** The rate limit is read back from its headers. */
  lemma RateLimitRoundTrip(rl: RateLimit)
    ensures ParseRateLimit(RateLimitHeaders(rl)) == Some(rl)
  {
    ParseNatToDecimal(rl.limit);
    ParseNatToDecimal(rl.remaining);
    ParseNatToDecimal(rl.reset);
    ParseNatToDecimal(rl.used);
  }

  // ---------------------------------------------------------------------
  // The search requests

  const SearchUrl: string := "https://api.github.com/search/repositories"

  /** The query parameters of a search request. */
  datatype SearchParams = SearchParams(q: string, sort: string, order: string, perPage: nat)

  /** The next request: no URL ends the loop; `params` is `None` for the
      empty `{}`. */
  datatype NextRequest = NextRequest(url: Option<string>, params: Option<SearchParams>)

  /** `build_base_request`: without a bound (Python's falsy `None` or `0`)
      every Python repository above 1000 stars; with a bound of at least
      1000, those between 1000 and the bound; a smaller bound ends the
      search. */
  function BuildBaseRequest(maxStars: Option<nat>): (r: NextRequest)
    ensures r.url.None? <==> maxStars.Some? && 0 < maxStars.value < 1000
    ensures r.url.None? ==> r.params.None?
    ensures r.url.Some? ==> (r.url.value == SearchUrl && r.params.Some?
      && r.params.value.sort == "stars" && r.params.value.order == "desc" && r.params.value.perPage == 100)
    ensures maxStars.None? || maxStars == Some(0) ==> r.params.value.q == "stars:>1000 language:python"
    ensures maxStars.Some? && maxStars.value >= 1000 ==>
      r.params.value.q == "stars:1000.." + NatToDecimal(maxStars.value) + " language:python"
  {
    if maxStars.Some? && maxStars.value != 0 && maxStars.value < 1000 then NextRequest(None, None)
    else
      var q := if maxStars.Some? && maxStars.value != 0
        then "stars:1000.." + NatToDecimal(maxStars.value) + " language:python"
        else "stars:>1000 language:python";
      NextRequest(Some(SearchUrl), Some(SearchParams(q, "stars", "desc", 100)))
  }

  /** What `get_next_request` reads of a saved response: the total count,
      the star counts of the items in order, and the parsed links. */
  datatype SearchPage = SearchPage(totalCount: nat, itemStars: seq<nat>, links: map<string, string>)

  /** `get_next_request`: stop on an empty result or no links, follow a
      `next` link, and otherwise start a new query bounded by the last
      item's star count (GitHub returns at most 1000 results per query).
      `None` when there are links but no items to take the bound from. */
  function GetNextRequest(page: SearchPage): (r: Option<NextRequest>)
    ensures page.totalCount == 0 || page.links == map[] ==> r == Some(NextRequest(None, None))
    ensures page.totalCount != 0 && "next" in page.links ==>
      r == Some(NextRequest(Some(page.links["next"]), None))
    ensures page.totalCount != 0 && page.links != map[] && "next" !in page.links ==>
      (r.None? <==> |page.itemStars| == 0)
      && (r.Some? ==> r.value == BuildBaseRequest(Some(page.itemStars[|page.itemStars| - 1])))
  {
    if page.totalCount == 0 || page.links == map[] then Some(NextRequest(None, None))
    else if "next" in page.links then Some(NextRequest(Some(page.links["next"]), None))
    else if |page.itemStars| == 0 then None
    else Some(BuildBaseRequest(Some(page.itemStars[|page.itemStars| - 1])))
  }

  /** A restart whose last item has fewer than 1000 stars ends the search,
      so the outer loop terminates there. */
  lemma RestartBelowThresholdStops(page: SearchPage)
    requires page.totalCount != 0 && page.links != map[] && "next" !in page.links
    requires |page.itemStars| > 0 && 0 < page.itemStars[|page.itemStars| - 1] < 1000
    ensures GetNextRequest(page).Some? && GetNextRequest(page).value.url.None?
  {
  }

  // ---------------------------------------------------------------------
  // Page files

  const PagePrefix: string := "search-page"
  const PageSuffix: string := ".json"

  /** `f"search-page{page:04d}.json"`. */
  function PageFileName(page: nat): string {
    PagePrefix + ZeroPadded(page, 4) + PageSuffix
  }

  /** `^search-page(\d+)\.json` matched against the whole name. */
  function MatchWhole(name: string): (r: Option<nat>)
    ensures r.Some? ==> StartsWith(name, PagePrefix) && EndsWith(name, PageSuffix)
  {
    if |name| > |PagePrefix| + |PageSuffix| && StartsWith(name, PagePrefix) && EndsWith(name, PageSuffix)
       && AllDigits(name[|PagePrefix|..|name| - |PageSuffix|])
    then Some(DigitsValue(name[|PagePrefix|..|name| - |PageSuffix|]))
    else None
  }

  /** `re.match(r"^search-page(\d+)\.json$", name)` and its group as an
      integer. Python's `$` also matches just before a final newline. */
  function MatchPageFile(name: string): (r: Option<nat>)
    ensures MatchWhole(name).Some? ==> r == MatchWhole(name)
    ensures r.Some? ==> MatchWhole(name).Some? || (EndsWith(name, "\n") && r == MatchWhole(name[..|name| - 1]))
  {
    if MatchWhole(name).Some? then MatchWhole(name)
    else if |name| > 0 && name[|name| - 1] == '\n' then MatchWhole(name[..|name| - 1])
    else None
  }

  /** A page file's name matches the pattern and gives its page number
      back. */
  lemma PageFileNameRoundTrip(page: nat)
    ensures MatchPageFile(PageFileName(page)) == Some(page)
  {
    var digits := ZeroPadded(page, 4);
    var name := PageFileName(page);
    assert name[..|PagePrefix|] == PagePrefix;
    assert name[|name| - |PageSuffix|..] == PageSuffix;
    assert name[|PagePrefix|..|name| - |PageSuffix|] == digits;
    ZeroPaddedValue(page, 4);
  }

  // ---------------------------------------------------------------------
  // Resuming

  /** An entry of the data directory: its name and whether it is a
      regular file. */
  datatype DataEntry = DataEntry(name: string, isFile: bool)

  /** The entry is a page file. */
  predicate IsPageFile(e: DataEntry) {
    e.isFile && MatchPageFile(e.name).Some?
  }

  /** The scan of `try_resume` as written: every regular file is matched,
      and the group of a failed match is taken regardless, which raises
      (`Err` with the offending name). Otherwise the first file with the
      largest page number. */
  method TryResumeAsWritten(entries: seq<DataEntry>) returns (r: Result<Option<(string, nat)>, string>)
    ensures r.Err? <==> exists k :: 0 <= k < |entries| && entries[k].isFile && MatchPageFile(entries[k].name).None?
    ensures r.Err? ==> exists k ::
      0 <= k < |entries| && entries[k].isFile && MatchPageFile(entries[k].name).None? && r.error == entries[k].name
    ensures r.Ok? ==> r == Ok(LatestPage(entries))
  {
    var s := ScanLatest(entries, UnmatchedFile, PageNumber, EntryName);
    match s
    case Err(k) =>
      r := Err(entries[k].name);
    case Ok(v) =>
      r := Ok(v);
  }

  /** A regular file whose name does not match the page pattern. */
  predicate UnmatchedFile(e: DataEntry) {
    e.isFile && MatchPageFile(e.name).None?
  }

  /** A scan that stops at the first element `bad` rejects (`Err` with its
      index) and otherwise keeps the first element with the largest number. */
  method ScanLatest<T>(xs: seq<T>, bad: T -> bool, num: T -> Option<nat>, name: T -> string)
    returns (r: Result<Option<(string, nat)>, nat>)
    ensures r.Err? <==> exists k :: 0 <= k < |xs| && bad(xs[k])
    ensures r.Err? ==> r.error < |xs| && bad(xs[r.error]) && forall k :: 0 <= k < r.error ==> !bad(xs[k])
    ensures r.Ok? ==> r == Ok(LatestBy(xs, num, name))
  {
    var chosen: Option<(string, nat)> := None;
    for i := 0 to |xs|
      invariant forall k :: 0 <= k < i ==> !bad(xs[k])
      invariant chosen == LatestBy(xs[..i], num, name)
    {
      LatestByTake(xs, i, num, name);
      if bad(xs[i]) {
        return Err(i);
      }
      var m := num(xs[i]);
      if m.Some? && (chosen.None? || m.value > chosen.value.1) {
        chosen := Some((name(xs[i]), m.value));
      }
    }
    TakeAll(xs);
    r := Ok(chosen);
  }

  /** The page number of a page file, `None` for any other entry. */
  function PageNumber(e: DataEntry): (r: Option<nat>)
    ensures r.Some? <==> IsPageFile(e)
    ensures r.Some? ==> r == MatchPageFile(e.name)
  {
    if e.isFile then MatchPageFile(e.name) else None
  }

  function EntryName(e: DataEntry): string {
    e.name
  }

  /** The first element with the largest number, if any, as its name and
      number (reference definition, from the end). */
  function LatestBy<T>(xs: seq<T>, num: T -> Option<nat>, name: T -> string): Option<(string, nat)>
  {
    if |xs| == 0 then None
    else
      var x := xs[|xs| - 1];
      var before := LatestBy(xs[..|xs| - 1], num, name);
      if num(x).Some? && (before.None? || num(x).value > before.value.1)
      then Some((name(x), num(x).value))
      else before
  }

  lemma LatestBySnoc<T>(init: seq<T>, x: T, num: T -> Option<nat>, name: T -> string)
    ensures LatestBy(init + [x], num, name) ==
      var before := LatestBy(init, num, name);
      if num(x).Some? && (before.None? || num(x).value > before.value.1)
      then Some((name(x), num(x).value))
      else before
  {
    assert (init + [x])[..|init|] == init;
  }

  lemma LatestByTake<T>(xs: seq<T>, i: nat, num: T -> Option<nat>, name: T -> string)
    requires i < |xs|
    ensures LatestBy(xs[..i + 1], num, name) ==
      var before := LatestBy(xs[..i], num, name);
      if num(xs[i]).Some? && (before.None? || num(xs[i]).value > before.value.1)
      then Some((name(xs[i]), num(xs[i]).value))
      else before
  {
    TakeSnoc(xs, i);
    LatestBySnoc(xs[..i], xs[i], num, name);
  }

  lemma {:induction false} LatestByIsMax<T>(xs: seq<T>, num: T -> Option<nat>, name: T -> string)
    ensures LatestBy(xs, num, name).None? <==> forall k :: 0 <= k < |xs| ==> num(xs[k]).None?
    ensures LatestBy(xs, num, name).Some? ==>
      (exists k :: 0 <= k < |xs| && num(xs[k]).Some?
         && name(xs[k]) == LatestBy(xs, num, name).value.0
         && num(xs[k]).value == LatestBy(xs, num, name).value.1)
      && forall k :: 0 <= k < |xs| && num(xs[k]).Some? ==> num(xs[k]).value <= LatestBy(xs, num, name).value.1
    decreases |xs|
  {
    if |xs| > 0 {
      var init := xs[..|xs| - 1];
      LatestByIsMax(init, num, name);
      assert forall k :: 0 <= k < |init| ==> init[k] == xs[k];
      var before := LatestBy(init, num, name);
      var x := xs[|xs| - 1];
      if num(x).Some? && (before.None? || num(x).value > before.value.1) {
        assert num(xs[|xs| - 1]).Some?;
      } else if before.Some? {
        var k :| 0 <= k < |init| && num(init[k]).Some? && name(init[k]) == before.value.0
          && num(init[k]).value == before.value.1;
        assert xs[k] == init[k];
      }
    }
  }

  /** The first page file with the largest page number, if any. */
  function LatestPage(entries: seq<DataEntry>): Option<(string, nat)> {
    LatestBy(entries, PageNumber, EntryName)
  }

  /** The latest page is the largest page number among the page files, and
      there is none exactly when there are no page files. */
  lemma LatestPageIsMax(entries: seq<DataEntry>)
    ensures LatestPage(entries).None? <==> forall k :: 0 <= k < |entries| ==> !IsPageFile(entries[k])
    ensures LatestPage(entries).Some? ==>
      (exists k :: 0 <= k < |entries| && IsPageFile(entries[k])
         && entries[k].name == LatestPage(entries).value.0
         && MatchPageFile(entries[k].name).value == LatestPage(entries).value.1)
      && forall k :: 0 <= k < |entries| && IsPageFile(entries[k]) ==>
           MatchPageFile(entries[k].name).value <= LatestPage(entries).value.1
  {
    LatestByIsMax(entries, PageNumber, EntryName);
    if LatestPage(entries).Some? {
      var k :| 0 <= k < |entries| && PageNumber(entries[k]).Some?
        && EntryName(entries[k]) == LatestPage(entries).value.0
        && PageNumber(entries[k]).value == LatestPage(entries).value.1;
      assert IsPageFile(entries[k]);
    }
  }

  /** `try_resume` skipping the files that do not match, as the later
      scripts over the same directory do. */
  function TryResume(entries: seq<DataEntry>): (r: Option<(string, nat)>)
    ensures r.None? <==> forall k :: 0 <= k < |entries| ==> !IsPageFile(entries[k])
    ensures r.Some? ==>
      (exists k :: 0 <= k < |entries| && IsPageFile(entries[k])
         && entries[k].name == r.value.0 && MatchPageFile(entries[k].name).value == r.value.1)
      && forall k :: 0 <= k < |entries| && IsPageFile(entries[k]) ==> MatchPageFile(entries[k].name).value <= r.value.1
  {
    LatestPageIsMax(entries);
    LatestPage(entries)
  }

  /** Resuming: the page after the latest saved one, and the request that
      the saved response leads to (`read` stands for loading that file). */
  function Resume(entries: seq<DataEntry>, read: string -> SearchPage): (r: Option<(nat, Option<NextRequest>)>)
    ensures r.None? <==> TryResume(entries).None?
    ensures r.Some? ==> (r.value.0 == TryResume(entries).value.1 + 1
      && r.value.1 == GetNextRequest(read(TryResume(entries).value.0)))
  {
    match TryResume(entries)
    case None => None
    case Some((name, page)) => Some((page + 1, GetNextRequest(read(name))))
  }

  /** The data directory after the rev-fetching step has written
      `revs.txt` next to the first page. */
  function ResumedDirectory(): seq<DataEntry> {
    [DataEntry(PageFileName(1), true), DataEntry("revs.txt", true)]
  }

  /** As written, resuming fails on that directory: `revs.txt` does not
      match and its group is taken anyway. */
  method ResumeAsWrittenFails() returns (r: Result<Option<(string, nat)>, string>)
    ensures r == Err("revs.txt")
  {
    var entries := ResumedDirectory();
    assert MatchPageFile("revs.txt").None? by {
      assert !StartsWith("revs.txt", PagePrefix);
      assert "revs.txt"[|"revs.txt"| - 1] != '\n';
    }
    PageFileNameRoundTrip(1);
    r := TryResumeAsWritten(entries);
    assert forall k :: 0 <= k < |entries| && entries[k].isFile && MatchPageFile(entries[k].name).None? ==> k == 1;
  }

  /** Skipping non-matching files resumes after the saved page. */
  lemma ResumeSkipsOtherFiles()
    ensures TryResume(ResumedDirectory()) == Some((PageFileName(1), 1))
  {
    assert MatchPageFile("revs.txt").None? by {
      assert !StartsWith("revs.txt", PagePrefix);
      assert "revs.txt"[|"revs.txt"| - 1] != '\n';
    }
    PageFileNameRoundTrip(1);
    var entries := ResumedDirectory();
    assert entries[..1] == [DataEntry(PageFileName(1), true)];
    assert entries[..1][..0] == [];
  }
}
