/** Selecting the stored reports to work on (tool/src/e2e/mod.rs, and the
    identical private copy of `AllowedRepos` and `list_reports` in
    tool/src/e2e/labeling.rs): an optional allow-list of repository ids,
    and the listing of `reports/` filtered to allowed `*.json` files. */
module Reports {
  import opened Wrappers
  import opened Strings
  import opened Search
  import opened Config

  // ---------------------------------------------------------------------
  // Allow-list

  /** Rust's `AllowedRepos`. A `Filtered` list is kept sorted by its
      constructor so membership can use binary search. */
  datatype AllowedRepos = All | Filtered(items: seq<string>)

  ghost predicate Valid(a: AllowedRepos) {
    a.Filtered? ==> Sorted(a.items)
  }

  /** `AllowedRepos::new_filtered`: the ids, sorted. */
  function NewFiltered(ids: seq<string>): (a: AllowedRepos)
    ensures a.Filtered? && Valid(a)
    ensures multiset(a.items) == multiset(ids)
  {
    Filtered(SortStrings(ids))
  }

  /** `AllowedRepos::is_allowed`: everything for `All`, binary search in
      the sorted list for `Filtered`. */
  function IsAllowed(a: AllowedRepos, id: string): (allowed: bool)
    requires Valid(a)
    ensures a.All? ==> allowed
    ensures a.Filtered? ==> (allowed <==> id in a.items)
  {
    match a
    case All => true
    case Filtered(items) => Contains(items, id)
  }

  /** Sorting before searching loses nothing: an id is allowed exactly when
      it was one of the ids given. */
  lemma FilteredAllowsExactly(ids: seq<string>, id: string)
    ensures IsAllowed(NewFiltered(ids), id) <==> id in ids
  {
    var items := NewFiltered(ids).items;
    assert id in items <==> id in multiset(items);
  }

  /** `From<Option<&DatasetConfig>> for AllowedRepos`. */
  function FromDataset(dataset: Option<DatasetConfig>): (a: AllowedRepos)
    ensures Valid(a)
    ensures dataset.None? ==> a == All
    ensures dataset.Some? ==> a == NewFiltered(RepoIds(dataset.value))
  {
    match dataset
    case None => All
    case Some(d) => NewFiltered(RepoIds(d))
  }

  /** With a dataset, exactly the ids of its repositories are allowed. */
  lemma DatasetAllowsItsRepos(d: DatasetConfig, id: string)
    ensures IsAllowed(FromDataset(Some(d)), id) <==> exists k :: 0 <= k < |d.repos| && d.repos[k].id == id
  {
    FilteredAllowsExactly(RepoIds(d), id);
    if id in RepoIds(d) {
      var k :| 0 <= k < |RepoIds(d)| && RepoIds(d)[k] == id;
      assert d.repos[k].id == id;
    }
  }

  // ---------------------------------------------------------------------
  // File names (Rust's `Path::file_stem` and `Path::extension`)

  /** Rust's split of a file name at its last dot: no split for `..`, for
      a name without a dot, or when the only text before the last dot is
      empty (a leading-dot name such as `.json`). */
  function SplitAtDot(name: string): (r: Option<(string, string)>)
    ensures r.Some? ==> name == r.value.0 + "." + r.value.1 && r.value.0 != "" && '.' !in r.value.1
    ensures r.None? <==> name == ".." || '.' !in name || RSplitOnce(name, '.').value.0 == ""
  {
    if name == ".." then None
    else
      match RSplitOnce(name, '.')
      case None => None
      case Some((before, after)) => if before == "" then None else Some((before, after))
  }

  /** `Path::extension`. */
  function Extension(name: string): Option<string> {
    match SplitAtDot(name)
    case None => None
    case Some((_, after)) => Some(after)
  }

  /** `Path::file_stem`. */
  function Stem(name: string): string {
    match SplitAtDot(name)
    case None => name
    case Some((before, _)) => before
  }

  /** A report saved as `{id}.json` is recognised as a report and its stem
      gives the id back, for every non-empty id. The empty id gives the
      hidden name `.json`, which has no extension. */
  lemma ReportFileNameRoundTrip(id: string)
    ensures id != "" ==> Extension(id + ".json") == Some("json") && Stem(id + ".json") == id
    ensures Extension("" + ".json") == None
  {
    RSplitOnceJoin(id, '.', "json");
    assert id + ".json" == id + ['.'] + "json";
    RSplitOnceJoin("", '.', "json");
    assert "" + ".json" == "" + ['.'] + "json";
  }

  // ---------------------------------------------------------------------
  // Listing the reports directory

  /** An entry's name as the OS gives it. */
  datatype OsName = Utf8(s: string) | NotUtf8

  /** A directory entry: its name and whether the path is a regular file
      (following links). */
  datatype DirEntry = DirEntry(name: OsName, isFile: bool)

  /** What reading `reports/` gives: not a directory, a failure to open
      it, or the entries, each of which may fail to be read. */
  datatype Listing = NotADirectory | OpenFailed(error: string) | Entries(entries: seq<Result<DirEntry, string>>)

  /** The id under which an entry is listed, if it is listed: a regular file
      with a UTF-8 name whose extension is `json` and whose stem is allowed. */
  function ListedId(e: DirEntry, allowed: AllowedRepos): (r: Option<string>)
    requires Valid(allowed)
    ensures r.Some? <==>
      e.isFile && e.name.Utf8? && Extension(e.name.s) == Some("json") && IsAllowed(allowed, Stem(e.name.s))
    ensures r.Some? ==> r.value == Stem(e.name.s)
  {
    if e.isFile && e.name.Utf8? && Extension(e.name.s) == Some("json") && IsAllowed(allowed, Stem(e.name.s))
    then Some(Stem(e.name.s))
    else None
  }

  /** Reference definition: the listed (id, file name) pairs of a
      directory's entries, in order (entries that could not be read list
      nothing; `ListReports` fails on them first). */
  function ListedIn(entries: seq<Result<DirEntry, string>>, allowed: AllowedRepos): seq<(string, string)>
    requires Valid(allowed)
  {
    if |entries| == 0 then []
    else ListedOne(entries[0], allowed) + ListedIn(entries[1..], allowed)
  }

  function ListedOne(entry: Result<DirEntry, string>, allowed: AllowedRepos): seq<(string, string)>
    requires Valid(allowed)
  {
    if entry.Err? then []
    else
      match ListedId(entry.value, allowed)
      case Some(id) => [(id, entry.value.name.s)]
      case None => []
  }

  /** Every listed pair names an allowed id and a `{id}.json` file. */
  lemma {:induction false} ListedInSound(entries: seq<Result<DirEntry, string>>, allowed: AllowedRepos)
    requires Valid(allowed)
    ensures forall p :: p in ListedIn(entries, allowed) ==>
      IsAllowed(allowed, p.0) && Extension(p.1) == Some("json") && Stem(p.1) == p.0
  {
    if |entries| > 0 {
      ListedInSound(entries[1..], allowed);
    }
  }

  /** `list_reports`: no directory gives no reports; otherwise every entry
      must be readable, and the regular `*.json` files with allowed stems
      are listed in directory order. */
  function ListReports(listing: Listing, allowed: AllowedRepos): (r: Result<seq<(string, string)>, string>)
    requires Valid(allowed)
    ensures listing.NotADirectory? ==> r == Ok([])
    ensures listing.OpenFailed? ==> r == Err(listing.error)
    ensures listing.Entries? ==>
      (r.Ok? <==> forall k :: 0 <= k < |listing.entries| ==> listing.entries[k].Ok?)
    ensures listing.Entries? && r.Ok? ==> r.value == ListedIn(listing.entries, allowed)
  {
    match listing
    case NotADirectory => Ok([])
    case OpenFailed(e) => Err(e)
    case Entries(entries) => ListEntries(entries, allowed)
  }

  /** `list_reports` over the directory's entries: the first entry that
      cannot be read fails the listing. */
  function ListEntries(entries: seq<Result<DirEntry, string>>, allowed: AllowedRepos)
    : (r: Result<seq<(string, string)>, string>)
    requires Valid(allowed)
    ensures r.Ok? <==> forall k :: 0 <= k < |entries| ==> entries[k].Ok?
    ensures r.Ok? ==> r.value == ListedIn(entries, allowed)
    ensures r.Err? ==> exists k :: 0 <= k < |entries| && entries[k] == Err(r.error)
  {
    if |entries| == 0 then Ok([])
    else if entries[0].Err? then Err(entries[0].error)
    else
      match ListEntries(entries[1..], allowed)
      case Err(e) => Err(e)
      case Ok(rest) => Ok(ListedOne(entries[0], allowed) + rest)
  }
}
