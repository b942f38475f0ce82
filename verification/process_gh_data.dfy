/** Turning the saved search pages into the repository list
    (data/github/03_process_raw_gh_data.py, and its older variant
    data/github/process_raw_gh_data.py): each repository once, by id, the
    first occurrence kept; the pinned commit looked up in `revs.txt`; and
    the list sorted by stars, most first. The page contents are an input,
    already parsed, in the order the pages were listed and read. */
module ProcessGhData {
  import opened Wrappers
  import opened Strings
  import opened Collate
  import opened FetchRefs

  /** What the scripts read of a search result. `homepage` is `None` for
      JSON `null`. */
  datatype SearchItem = SearchItem(id: nat, fullName: string, stars: nat, homepage: Option<string>, branch: string)

  function ItemId(item: SearchItem): nat {
    item.id
  }

  /** The items of the pages, each id once, the first occurrence kept. */
  function UniqueItems(items: seq<SearchItem>): (r: seq<SearchItem>)
    ensures forall i, j :: 0 <= i < j < |r| ==> r[i].id != r[j].id
    ensures forall x :: x in r ==> x in items
    ensures forall i :: 0 <= i < |items| && (forall k :: 0 <= k < i ==> items[k].id != items[i].id) ==> items[i] in r
  {
    FirstOccurrencesDistinct({}, items, ItemId);
    FirstOccurrencesSubseq({}, items, ItemId);
    forall i | 0 <= i < |items| && (forall k :: 0 <= k < i ==> items[k].id != items[i].id)
      ensures items[i] in FirstOccurrences({}, items, ItemId)
    {
      FirstOccurrenceKept({}, items, ItemId, i);
    }
    FirstOccurrences({}, items, ItemId)
  }

  // ---------------------------------------------------------------------
  // The revs map

  type RevKey = (string, string)

  /** One line of `revs.txt`, stripped and split at tabs: exactly three
      fields `rev`, `id`, `branch`, else the script's assertion fails. */
  function ParseRevLine(line: string): (r: Option<(RevKey, string)>)
    ensures r.Some? <==> |Split(Strip(line), '\t')| == 3
  {
    var data := Split(Strip(line), '\t');
    if |data| != 3 then None else Some(((data[1], data[2]), data[0]))
  }

  /** Every line parsed, or `None` when one fails. */
  function ParseRevLines(lines: seq<string>): (r: Option<seq<(RevKey, string)>>)
    ensures r.Some? <==> forall k :: 0 <= k < |lines| ==> ParseRevLine(lines[k]).Some?
    ensures r.Some? ==> |r.value| == |lines| && forall k :: 0 <= k < |lines| ==> r.value[k] == ParseRevLine(lines[k]).value
  {
    MapAll(lines, ParseRevLine)
  }

  /** `revs[(id, branch)] = rev` for every line in order. */
  function ParseRevs(content: string): (r: Option<map<RevKey, string>>)
    ensures r.Some? <==> ParseRevLines(FileLines(content)).Some?
    ensures r.Some? ==> forall key ::
      (key in r.value <==> LastValue(ParseRevLines(FileLines(content)).value, key).Some?)
      && (key in r.value ==> r.value[key] == LastValue(ParseRevLines(FileLines(content)).value, key).value)
  {
    match ParseRevLines(FileLines(content))
    case None => None
    case Some(pairs) =>
      assert forall key ::
        (key in Bind(pairs) <==> LastValue(pairs, key).Some?)
        && (key in Bind(pairs) ==> Bind(pairs)[key] == LastValue(pairs, key).value) by {
        forall key ensures (key in Bind(pairs) <==> LastValue(pairs, key).Some?)
          && (key in Bind(pairs) ==> Bind(pairs)[key] == LastValue(pairs, key).value) {
          BindKeepsLast(pairs, key);
        }
      }
      Some(Bind(pairs))
  }

  /** A line written by the rev-fetching step parses back to its key and
      rev, provided the fields hold no whitespace and rev and branch are
      not empty (an empty branch would leave the stripped line two
      fields). */
  lemma RevLineParses(rev: string, id: string, branch: string)
    requires |rev| > 0 && |branch| > 0
    requires NoPySpace(rev) && NoPySpace(id) && NoPySpace(branch)
    ensures ParseRevLine(RevLine(rev, id, branch)) == Some(((id, branch), rev))
  {
    assert IsPySpace('\t') && IsPySpace('\n');
    var s := rev + "\t" + id + "\t" + branch;
    assert RevLine(rev, id, branch) == s + "\n";
    assert s[0] == rev[0];
    assert s[|s| - 1] == branch[|branch| - 1];
    StripEnds(s, "\n");
    var parts := [rev, id, branch];
    assert s == Join(parts, '\t') by {
      assert Join(parts[1..], '\t') == id + "\t" + branch;
    }
    assert '\t' !in rev && '\t' !in id && '\t' !in branch;
    SplitJoin(parts, '\t');
  }

  /** Rev lines for `(key, rev)` entries, in order. */
  function RevLines(entries: seq<(RevKey, string)>): (lines: seq<string>)
    ensures |lines| == |entries|
  {
    seq(|entries|, k requires 0 <= k < |entries| => RevLine(entries[k].1, entries[k].0.0, entries[k].0.1))
  }

  predicate WellFormedRev(e: (RevKey, string)) {
    |e.1| > 0 && |e.0.1| > 0 && NoPySpace(e.1) && NoPySpace(e.0.0) && NoPySpace(e.0.1)
  }

  /** `revs.txt` as written by the rev-fetching step reads back as its
      entries: every key maps to the rev of its last line. */
  lemma RevsRoundTrip(entries: seq<(RevKey, string)>)
    requires forall k :: 0 <= k < |entries| ==> WellFormedRev(entries[k])
    ensures ParseRevs(Concat(RevLines(entries))) == Some(Bind(entries))
  {
    var lines := RevLines(entries);
    forall k | 0 <= k < |lines|
      ensures WholeLine(lines[k]) && ParseRevLine(lines[k]) == Some(entries[k])
    {
      var (key, rev) := entries[k];
      assert '\n' !in rev && '\n' !in key.0 && '\n' !in key.1 by {
        assert IsPySpace('\n');
      }
      RevLineWhole(rev, key.0, key.1);
      RevLineParses(rev, key.0, key.1);
    }
    FileLinesConcat(lines);
    assert ParseRevLines(lines).value == entries;
  }

  // ---------------------------------------------------------------------
  // 03_process_raw_gh_data.py

  /** An entry of `all-repos.json`. */
  datatype RepoEntry = RepoEntry(fullName: string, stars: nat, homepage: Option<string>, branch: string, rev: string)

  function ItemKey(item: SearchItem): RevKey {
    (NatToDecimal(item.id), item.branch)
  }

  function EntryStars(e: RepoEntry): int {
    e.stars
  }

  /** Each item with its rev; the first item whose key is missing from the
      map fails (`KeyError`). */
  function JoinRevs(items: seq<SearchItem>, revs: map<RevKey, string>): (r: Result<seq<RepoEntry>, RevKey>)
    ensures r.Ok? <==> forall k :: 0 <= k < |items| ==> ItemKey(items[k]) in revs
    ensures r.Ok? ==> |r.value| == |items| && forall k :: 0 <= k < |items| ==>
      r.value[k] == RepoEntry(items[k].fullName, items[k].stars, items[k].homepage, items[k].branch, revs[ItemKey(items[k])])
    ensures r.Err? ==> exists i ::
      0 <= i < |items| && r.error == ItemKey(items[i]) && r.error !in revs
      && forall k :: 0 <= k < i ==> ItemKey(items[k]) in revs
  {
    if |items| == 0 then Ok([])
    else
      var item := items[0];
      if ItemKey(item) !in revs then Err(ItemKey(item))
      else
        match JoinRevs(items[1..], revs)
        case Err(e) =>
          MissingShifts(items, revs, e);
          Err(e)
        case Ok(rest) =>
          Ok([RepoEntry(item.fullName, item.stars, item.homepage, item.branch, revs[ItemKey(item)])] + rest)
  }

  /** A first missing key of the tail, behind a present head, is the first
      missing key of the whole list. */
  lemma MissingShifts(items: seq<SearchItem>, revs: map<RevKey, string>, e: RevKey)
    requires |items| > 0 && ItemKey(items[0]) in revs
    requires exists i ::
      0 <= i < |items[1..]| && e == ItemKey(items[1..][i]) && e !in revs
      && forall k :: 0 <= k < i ==> ItemKey(items[1..][k]) in revs
    ensures exists i ::
      0 <= i < |items| && e == ItemKey(items[i]) && e !in revs
      && forall k :: 0 <= k < i ==> ItemKey(items[k]) in revs
  {
    var i :| 0 <= i < |items[1..]| && e == ItemKey(items[1..][i]) && e !in revs
      && forall k :: 0 <= k < i ==> ItemKey(items[1..][k]) in revs;
    forall k | 0 < k < i + 1 ensures ItemKey(items[k]) in revs {
      assert items[k] == items[1..][k - 1];
    }
    assert items[i + 1] == items[1..][i];
  }

  /** The script: first occurrences by id, joined with their revs, sorted
      by stars, most first, equal counts in page order. */
  function ProcessRepos(items: seq<SearchItem>, revs: map<RevKey, string>): (r: Result<seq<RepoEntry>, RevKey>)
    ensures r.Ok? <==> forall k :: 0 <= k < |UniqueItems(items)| ==> ItemKey(UniqueItems(items)[k]) in revs
    ensures r.Ok? ==>
      var joined := JoinRevs(UniqueItems(items), revs).value;
      && SortedDesc(r.value, EntryStars)
      && multiset(r.value) == multiset(joined)
      && forall stars :: WithKey(r.value, EntryStars, stars) == WithKey(joined, EntryStars, stars)
    ensures r.Err? ==> r.error !in revs && exists k :: 0 <= k < |items| && ItemKey(items[k]) == r.error
  {
    var unique := UniqueItems(items);
    match JoinRevs(unique, revs)
    case Err(key) =>
      assert exists k :: 0 <= k < |items| && ItemKey(items[k]) == key by {
        var i :| 0 <= i < |unique| && key == ItemKey(unique[i]);
        assert unique[i] in items;
      }
      Err(key)
    case Ok(joined) =>
      forall stars ensures WithKey(SortDesc(joined, EntryStars), EntryStars, stars) == WithKey(joined, EntryStars, stars) {
        SortDescStable(joined, EntryStars, stars);
      }
      Ok(SortDesc(joined, EntryStars))
  }

  /** The whole step on the text of `revs.txt`: a malformed line fails
      first, then a missing key. */
  datatype ProcessError = MalformedRevLine | MissingRev(key: RevKey)

  function ProcessRaw03(items: seq<SearchItem>, revsFile: string): (r: Result<seq<RepoEntry>, ProcessError>)
    ensures ParseRevs(revsFile).None? <==> r == Err(MalformedRevLine)
    ensures ParseRevs(revsFile).Some? ==>
      match ProcessRepos(items, ParseRevs(revsFile).value)
      case Ok(entries) => r == Ok(entries)
      case Err(key) => r == Err(MissingRev(key))
  {
    match ParseRevs(revsFile)
    case None => Err(MalformedRevLine)
    case Some(revs) =>
      match ProcessRepos(items, revs)
      case Ok(entries) => Ok(entries)
      case Err(key) => Err(MissingRev(key))
  }

  /** A repository whose key the rev-fetching step recorded gets the rev
      recorded last for that key. */
  lemma RecordedRevUsed(items: seq<SearchItem>, entries: seq<(RevKey, string)>, i: nat)
    requires forall k :: 0 <= k < |entries| ==> WellFormedRev(entries[k])
    requires forall k :: 0 <= k < |UniqueItems(items)| ==> LastValue(entries, ItemKey(UniqueItems(items)[k])).Some?
    requires i < |UniqueItems(items)|
    ensures var r := ProcessRaw03(items, Concat(RevLines(entries)));
      && r.Ok?
      && RepoEntry(UniqueItems(items)[i].fullName, UniqueItems(items)[i].stars, UniqueItems(items)[i].homepage,
                   UniqueItems(items)[i].branch, LastValue(entries, ItemKey(UniqueItems(items)[i])).value) in r.value
  {
    RevsRoundTrip(entries);
    var revs := Bind(entries);
    var unique := UniqueItems(items);
    forall k | 0 <= k < |unique| ensures ItemKey(unique[k]) in revs && revs[ItemKey(unique[k])] == LastValue(entries, ItemKey(unique[k])).value {
      BindKeepsLast(entries, ItemKey(unique[k]));
    }
    var joined := JoinRevs(unique, revs).value;
    var r := ProcessRepos(items, revs).value;
    assert joined[i] in multiset(joined);
    assert joined[i] in multiset(r);
  }

  // ---------------------------------------------------------------------
  // process_raw_gh_data.py

  /** An entry of the older `all-repos.json`, with its fixed `test` field. */
  datatype RawEntry = RawEntry(fullName: string, stars: nat, homepage: string, branch: string, test: map<string, string>)

  /** `repo["homepage"] or ""`: missing or empty is the empty string. */
  function HomepageOrEmpty(homepage: Option<string>): (r: string)
    ensures homepage.Some? ==> r == homepage.value
    ensures r == "" <==> homepage.None? || homepage == Some("")
  {
    if homepage.Some? then homepage.value else ""
  }

  function RawEntryOf(item: SearchItem): RawEntry {
    RawEntry(item.fullName, item.stars, HomepageOrEmpty(item.homepage), item.branch, map["a" := "b"])
  }

  function RawStars(e: RawEntry): int {
    e.stars
  }

  /** Each item as an entry, in order. */
  function RawEntries(items: seq<SearchItem>): (r: seq<RawEntry>)
    ensures |r| == |items| && forall k :: 0 <= k < |items| ==> r[k] == RawEntryOf(items[k])
  {
    seq(|items|, k requires 0 <= k < |items| => RawEntryOf(items[k]))
  }

  /** The older script: first occurrences by id, each with exactly the five
      fields, sorted by stars, most first. */
  function ProcessRawRepos(items: seq<SearchItem>): (r: seq<RawEntry>)
    ensures SortedDesc(r, RawStars)
    ensures multiset(r) == multiset(RawEntries(UniqueItems(items)))
  {
    SortDesc(RawEntries(UniqueItems(items)), RawStars)
  }

  /** Every entry comes from an item of the pages and has the fixed `test`
      field; every first occurrence has its entry. */
  lemma ProcessRawEntries(items: seq<SearchItem>)
    ensures forall e :: e in ProcessRawRepos(items) ==>
      e.test == map["a" := "b"] && exists x :: x in items && e == RawEntryOf(x)
    ensures forall i :: 0 <= i < |items| && (forall k :: 0 <= k < i ==> items[k].id != items[i].id) ==>
      RawEntryOf(items[i]) in ProcessRawRepos(items)
  {
    var unique := UniqueItems(items);
    var entries := RawEntries(unique);
    var r := ProcessRawRepos(items);
    forall e | e in r ensures e.test == map["a" := "b"] && exists x :: x in items && e == RawEntryOf(x) {
      assert e in multiset(entries);
      var k :| 0 <= k < |entries| && entries[k] == e;
      assert unique[k] in items;
    }
    forall i | 0 <= i < |items| && (forall k :: 0 <= k < i ==> items[k].id != items[i].id)
      ensures RawEntryOf(items[i]) in r
    {
      var k :| 0 <= k < |unique| && unique[k] == items[i];
      assert entries[k] in multiset(entries);
    }
  }

  /** Repositories with equal stars keep their page order. */
  lemma ProcessRawStable(items: seq<SearchItem>, stars: nat)
    ensures var unique := UniqueItems(items);
      WithKey(ProcessRawRepos(items), RawStars, stars) == WithKey(RawEntries(unique), RawStars, stars)
  {
    SortDescStable(RawEntries(UniqueItems(items)), RawStars, stars);
  }
}
