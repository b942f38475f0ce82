/** Building the input dataset (data/gen_input_dataset.py): the GitHub
    repositories and the PyPI packages are each sorted by popularity, cut
    into cohorts (the most popular, the least popular, the rest), sampled
    with replacement per cohort and shuffled; each pick becomes a
    repository record of the dataset configuration. Random draws are
    inputs. */
module GenDataset {
  import opened Wrappers
  import opened Strings
  import opened Collate
  import opened Config
  import opened ProcessGhData

  // ---------------------------------------------------------------------
  // Python slices

  /** A slice bound: negative counts from the end, then clamped to the
      sequence. */
  function SliceBound(i: int, n: nat): (r: nat)
    ensures r <= n
    ensures 0 <= i <= n ==> r == i
    ensures i > n ==> r == n
    ensures -(n as int) <= i < 0 ==> r == n + i
    ensures i < -(n as int) ==> r == 0
  {
    if i < 0 then (if i + n < 0 then 0 else i + n) else if i > n then n else i
  }

  /** `s[a:b]`, `None` standing for an omitted end. */
  function PySlice<T>(s: seq<T>, a: int, b: Option<int>): (r: seq<T>)
    ensures var lo := SliceBound(a, |s|);
      var hi := if b.None? then |s| else SliceBound(b.value, |s|);
      (lo >= hi ==> r == []) && (lo < hi ==> r == s[lo..hi])
  {
    var lo := SliceBound(a, |s|);
    var hi := if b.None? then |s| else SliceBound(b.value, |s|);
    if lo >= hi then [] else s[lo..hi]
  }

  // ---------------------------------------------------------------------
  // Cohorts

  /** `[0, *splits, None]`. */
  function Bounds(splits: seq<int>): (r: seq<Option<int>>)
    ensures |r| == |splits| + 2
    ensures r[0] == Some(0) && r[|r| - 1] == None
    ensures forall k :: 0 <= k < |splits| ==> r[k + 1] == Some(splits[k])
  {
    [Some(0)] + seq(|splits|, k requires 0 <= k < |splits| => Some(splits[k])) + [None]
  }

  /** `[lst[a:b] for a, b in zip(bounds, bounds[1:])]`. */
  function Cohorts<T>(lst: seq<T>, splits: seq<int>): (r: seq<seq<T>>)
    ensures |r| == |splits| + 1
    ensures forall i :: 0 <= i < |r| ==> r[i] == PySlice(lst, Bounds(splits)[i].value, Bounds(splits)[i + 1])
  {
    var bounds := Bounds(splits);
    seq(|splits| + 1, i requires 0 <= i < |splits| + 1 => PySlice(lst, bounds[i].value, bounds[i + 1]))
  }

  function Flatten<T>(blocks: seq<seq<T>>): seq<T> {
    if |blocks| == 0 then [] else blocks[0] + Flatten(blocks[1..])
  }

  function Sum(xs: seq<nat>): nat {
    if |xs| == 0 then 0 else xs[0] + Sum(xs[1..])
  }

  /** With a leading split `top` and a trailing split `-bottom` that do not
      overlap, the three cohorts are the first `top` elements, the middle
      and the last `bottom` elements; together they are the list. */
  lemma ThreeCohorts<T>(lst: seq<T>, top: nat, bottom: nat)
    requires 0 < bottom && top + bottom <= |lst|
    ensures Cohorts(lst, [top, -(bottom as int)]) == [lst[..top], lst[top..|lst| - bottom], lst[|lst| - bottom..]]
    ensures Flatten(Cohorts(lst, [top, -(bottom as int)])) == lst
  {
    var c := Cohorts(lst, [top, -(bottom as int)]);
    var b := Bounds([top, -(bottom as int)]);
    assert b == [Some(0), Some(top), Some(-(bottom as int)), None];
    if top == 0 {
      assert c[0] == [];
    } else {
      assert c[0] == lst[..top];
    }
    if top == |lst| - bottom {
      assert c[1] == [];
    } else {
      assert c[1] == lst[top..|lst| - bottom];
    }
    assert c[2] == lst[|lst| - bottom..];
    assert c == [c[0], c[1], c[2]];
    FlattenThree(c[0], c[1], c[2]);
    SplitThree(lst, top, |lst| - bottom);
  }

  lemma FlattenThree<T>(a: seq<T>, b: seq<T>, c: seq<T>)
    ensures Flatten([a, b, c]) == a + (b + c)
  {
    var bl := [a, b, c];
    assert bl[1..] == [b, c] && bl[1..][1..] == [c] && bl[1..][1..][1..] == [];
    assert Flatten([c]) == c + [];
    assert c + [] == c;
  }

  lemma SplitThree<T>(s: seq<T>, i: nat, j: nat)
    requires i <= j <= |s|
    ensures s[..i] + (s[i..j] + s[j..]) == s
  {
  }

  /** With fewer elements than the two outer cohorts take, the middle
      cohort is empty (so any pick from it fails). */
  lemma ShortListEmptiesMiddle<T>(lst: seq<T>, top: nat, bottom: nat)
    requires 0 < bottom && |lst| <= top + bottom
    ensures Cohorts(lst, [top, -(bottom as int)])[1] == []
  {
    var b := Bounds([top, -(bottom as int)]);
    assert b[1] == Some(top) && b[2] == Some(-(bottom as int));
  }

  // ---------------------------------------------------------------------
  // Sampling

  /** Why sampling fails: the assertion on the number of cohorts, or
      `random.choices` asked for elements of an empty cohort. */
  datatype PickError = CohortCountMismatch | EmptyCohort(index: nat)

  /** `random.choices(cohort, k=k)`; the `j`th pick of cohort `i` takes
      the element at `draw(i, j)` reduced below the cohort's size. */
  function Choices<T>(cohort: seq<T>, k: nat, i: nat, draw: (nat, nat) -> nat): (r: seq<T>)
    requires |cohort| > 0
    ensures |r| == k && forall x :: x in r ==> x in cohort
  {
    seq(k, j requires 0 <= j < k => cohort[draw(i, j) % |cohort|])
  }

  /** `random.shuffle`: from the last position down to the second, swap
      with a position drawn at or below it. */
  method Shuffle<T>(xs: seq<T>, rand: nat -> nat) returns (r: seq<T>)
    ensures |r| == |xs|
    ensures multiset(r) == multiset(xs)
  {
    r := xs;
    var i := |xs|;
    while i > 1
      invariant 0 <= i <= |xs|
      invariant |r| == |xs|
      invariant multiset(r) == multiset(xs)
    {
      i := i - 1;
      var j := rand(i) % (i + 1);
      r := r[i := r[j]][j := r[i]];
    }
  }

  /** `n` elements, each taken from the cohort. */
  ghost predicate BlockOf<T>(block: seq<T>, cohort: seq<T>, n: nat) {
    |block| == n && forall x :: x in block ==> x in cohort
  }

  /** Each cohort so far gave its number of elements, all its own. */
  ghost predicate Drawn<T>(cohorts: seq<seq<T>>, picks: seq<nat>, picked: seq<seq<T>>)
    requires |picked| <= |cohorts| && |picked| <= |picks|
  {
    forall k :: 0 <= k < |picked| ==> BlockOf(picked[k], cohorts[k], picks[k])
  }

  lemma DrawnSnoc<T>(cohorts: seq<seq<T>>, picks: seq<nat>, picked: seq<seq<T>>, block: seq<T>)
    requires |picked| < |cohorts| && |picked| < |picks| && Drawn(cohorts, picks, picked)
    requires BlockOf(block, cohorts[|picked|], picks[|picked|])
    ensures Drawn(cohorts, picks, picked + [block])
  {
  }

  lemma DrawnAll<T>(cohorts: seq<seq<T>>, picks: seq<nat>, picked: seq<seq<T>>)
    requires |picked| == |cohorts| == |picks| && Drawn(cohorts, picks, picked)
    ensures forall i :: 0 <= i < |picks| ==> |picked[i]| == picks[i]
    ensures forall i, x :: 0 <= i < |picks| && x in picked[i] ==> x in cohorts[i]
    ensures |Flatten(picked)| == Sum(picks)
  {
    FlattenSize(picked, picks);
  }

  predicate NoEmptyPick<T>(cohorts: seq<seq<T>>, picks: seq<nat>, upTo: nat)
    requires upTo <= |cohorts| && upTo <= |picks|
  {
    forall k :: 0 <= k < upTo ==> picks[k] == 0 || |cohorts[k]| > 0
  }

  /** The `i`th cohort's draws: none when it gives no elements. */
  function DrawBlock<T>(cohort: seq<T>, n: nat, i: nat, draw: (nat, nat) -> nat): (block: seq<T>)
    requires n == 0 || |cohort| > 0
    ensures BlockOf(block, cohort, n)
  {
    if n == 0 then [] else Choices(cohort, n, i, draw)
  }

  lemma NoEmptyPickSnoc<T>(cohorts: seq<seq<T>>, picks: seq<nat>, i: nat)
    requires i < |cohorts| && i < |picks| && NoEmptyPick(cohorts, picks, i)
    requires picks[i] == 0 || |cohorts[i]| > 0
    ensures NoEmptyPick(cohorts, picks, i + 1)
  {
  }

  /** The draws of every cohort in turn, failing at the first cohort that
      must give elements but has none. */
  method DrawAll<T>(cohorts: seq<seq<T>>, picks: seq<nat>, draw: (nat, nat) -> nat)
    returns (r: Result<seq<T>, PickError>, picked: seq<seq<T>>)
    requires |cohorts| == |picks|
    ensures r.Ok? <==> NoEmptyPick(cohorts, picks, |picks|)
    ensures r.Err? ==> r.error.EmptyCohort?
    ensures r.Err? ==>
      var i := r.error.index;
      i < |picks| && picks[i] > 0 && cohorts[i] == [] && NoEmptyPick(cohorts, picks, i)
    ensures r.Ok? ==>
      && |picked| == |picks|
      && (forall i :: 0 <= i < |picks| ==> |picked[i]| == picks[i])
      && (forall i, x :: 0 <= i < |picks| && x in picked[i] ==> x in cohorts[i])
      && |r.value| == Sum(picks)
      && r.value == Flatten(picked)
  {
    picked := [];
    var result: seq<T> := [];
    for i := 0 to |cohorts|
      invariant |picked| == i && NoEmptyPick(cohorts, picks, i)
      invariant Drawn(cohorts, picks, picked)
      invariant result == Flatten(picked)
    {
      if picks[i] > 0 && |cohorts[i]| == 0 {
        return Err(EmptyCohort(i)), picked;
      }
      var block := DrawBlock(cohorts[i], picks[i], i, draw);
      NoEmptyPickSnoc(cohorts, picks, i);
      DrawnSnoc(cohorts, picks, picked, block);
      FlattenSnoc(picked, block);
      picked := picked + [block];
      result := result + block;
    }
    DrawnAll(cohorts, picks, picked);
    r := Ok(result);
  }

  /** `pick_with_cohorts`: check the counts, cut the cohorts, draw from
      each in turn, and shuffle. `picked` holds each cohort's draws. */
  method PickWithCohorts<T>(lst: seq<T>, splits: seq<int>, picks: seq<nat>, draw: (nat, nat) -> nat, rand: nat -> nat)
    returns (r: Result<seq<T>, PickError>, picked: seq<seq<T>>)
    ensures r == Err(CohortCountMismatch) <==> |splits| + 1 != |picks|
    ensures |splits| + 1 == |picks| ==>
      (r.Ok? <==> NoEmptyPick(Cohorts(lst, splits), picks, |picks|))
    ensures r.Err? && r.error.EmptyCohort? ==>
      var i := r.error.index;
      i < |picks| && picks[i] > 0 && Cohorts(lst, splits)[i] == [] && NoEmptyPick(Cohorts(lst, splits), picks, i)
    ensures r.Ok? ==>
      && |picked| == |picks|
      && (forall i :: 0 <= i < |picks| ==> |picked[i]| == picks[i])
      && (forall i, x :: 0 <= i < |picks| && x in picked[i] ==> x in Cohorts(lst, splits)[i])
      && |r.value| == Sum(picks)
      && multiset(r.value) == multiset(Flatten(picked))
  {
    if |splits| + 1 != |picks| {
      return Err(CohortCountMismatch), [];
    }
    var drawn;
    drawn, picked := DrawAll(Cohorts(lst, splits), picks, draw);
    if drawn.Err? {
      return Err(drawn.error), picked;
    }
    var shuffled := Shuffle(drawn.value, rand);
    r := Ok(shuffled);
  }

  lemma {:induction false} FlattenSnoc<T>(blocks: seq<seq<T>>, b: seq<T>)
    ensures Flatten(blocks + [b]) == Flatten(blocks) + b
    decreases |blocks|
  {
    if |blocks| == 0 {
      assert Flatten([b]) == b + Flatten([b][1..]);
    } else {
      assert (blocks + [b])[1..] == blocks[1..] + [b];
      FlattenSnoc(blocks[1..], b);
    }
  }

  /** Blocks of the given sizes flatten to their total size. */
  lemma {:induction false} FlattenSize<T>(blocks: seq<seq<T>>, sizes: seq<nat>)
    requires |blocks| == |sizes|
    requires forall i :: 0 <= i < |sizes| ==> |blocks[i]| == sizes[i]
    ensures |Flatten(blocks)| == Sum(sizes)
    decreases |blocks|
  {
    if |blocks| > 0 {
      FlattenSize(blocks[1..], sizes[1..]);
    }
  }

  lemma {:induction false} SumSnoc(xs: seq<nat>, x: nat)
    ensures Sum(xs + [x]) == Sum(xs) + x
    decreases |xs|
  {
    if |xs| == 0 {
      assert Sum([x]) == x + Sum([x][1..]);
    } else {
      assert (xs + [x])[1..] == xs[1..] + [x];
      SumSnoc(xs[1..], x);
    }
  }

  /** Every pick is an element of the list. */
  lemma PicksFromList<T>(lst: seq<T>, splits: seq<int>, i: nat, x: T)
    requires i < |splits| + 1 && x in Cohorts(lst, splits)[i]
    ensures x in lst
  {
    var b := Bounds(splits);
    assert Cohorts(lst, splits)[i] == PySlice(lst, b[i].value, b[i + 1]);
    InSlice(lst, b[i].value, b[i + 1], x);
  }

  lemma InSlice<T>(s: seq<T>, a: int, b: Option<int>, x: T)
    requires x in PySlice(s, a, b)
    ensures x in s
  {
    var lo := SliceBound(a, |s|);
    var hi := if b.None? then |s| else SliceBound(b.value, |s|);
    assert PySlice(s, a, b) == s[lo..hi];
    var k :| lo <= k < hi && s[k] == x;
  }

  // ---------------------------------------------------------------------
  // The dataset records

  const GitHubUrlPrefix: string := "https://github.com/"

  /** `"gh." + full_name.replace("/", ".")`. */
  function GhId(fullName: string): (id: string)
    ensures |id| == |fullName| + 3 && id[..3] == "gh."
    ensures '/' !in id
  {
    "gh." + ReplaceChar(fullName, '/', '.')
  }

  /** For an `owner/name` full name, the id is `gh.owner.name`. */
  lemma GhIdOfFullName(owner: string, name: string)
    requires '/' !in owner && '/' !in name
    ensures GhId(owner + "/" + name) == "gh." + DotJoined(owner, name)
  {
    var f := owner + "/" + name;
    assert ReplaceChar(f, '/', '.') == owner + "." + name;
  }

  /** GitHub owners hold no `.`, so distinct repositories get distinct
      ids: the first `.` after the prefix ends the owner. */
  lemma GhIdInjective(owner1: string, name1: string, owner2: string, name2: string)
    requires '/' !in owner1 && '/' !in name1 && '.' !in owner1
    requires '/' !in owner2 && '/' !in name2 && '.' !in owner2
    requires GhId(owner1 + "/" + name1) == GhId(owner2 + "/" + name2)
    ensures owner1 == owner2 && name1 == name2
  {
    GhIdOfFullName(owner1, name1);
    GhIdOfFullName(owner2, name2);
    var t1 := DotJoined(owner1, name1);
    var t2 := DotJoined(owner2, name2);
    DropPrefix(t1, t2);
    DotJoinedParts(owner1, name1);
    DotJoinedParts(owner2, name2);
  }

  function DotJoined(owner: string, name: string): string {
    owner + "." + name
  }

  lemma DropPrefix(t1: string, t2: string)
    requires "gh." + t1 == "gh." + t2
    ensures t1 == t2
  {
    assert t1 == ("gh." + t1)[3..];
    assert t2 == ("gh." + t2)[3..];
  }

  /** The first `.` of `owner.name` ends a dot-free owner. */
  lemma DotJoinedParts(owner: string, name: string)
    requires '.' !in owner
    ensures var t := DotJoined(owner, name);
      IndexOf(t, '.') == Some(|owner|) && t[..|owner|] == owner && t[|owner| + 1..] == name
  {
    var t := DotJoined(owner, name);
    assert t[|owner|] == '.';
    assert t[..|owner|] == owner;
    assert t[|owner| + 1..] == name;
  }

  /** Python truthiness of the homepage: present and not empty. */
  function TruthyHomepage(homepage: Option<string>): (r: Option<string>)
    ensures r.Some? <==> homepage.Some? && homepage.value != ""
    ensures r.Some? ==> r == homepage
  {
    if homepage.Some? && homepage.value != "" then homepage else None
  }

  /** `process_gh_repo`: the record of a picked repository. */
  function GhRecord(repo: RepoEntry): (c: RepositoryConfig)
    ensures c.id == GhId(repo.fullName) && c.src.GitHub?
    ensures c.src.gh == GitHubSrc(repo.fullName, repo.rev, Some(""))
    ensures c.extraDependencies == []
    ensures c.meta.repoUrl == Some(GitHubUrlPrefix + repo.fullName)
    ensures c.meta.stars == Some(repo.stars) && c.meta.downloads.None?
    ensures c.meta.homepage.Some? <==> repo.homepage.Some? && repo.homepage.value != ""
    ensures c.meta.homepage.Some? ==> c.meta.homepage == repo.homepage
  {
    RepositoryConfig(
      GhId(repo.fullName),
      GitHub(GitHubSrc(repo.fullName, repo.rev, Some(""))),
      [],
      RepositoryMeta(Some(GitHubUrlPrefix + repo.fullName), Some(repo.stars), None, TruthyHomepage(repo.homepage)))
  }

  /** A line of the PyPI data file. */
  datatype PypiPackage = PypiPackage(name: string, version: string, url: string, filename: string, downloads: nat)

  /** `process_pypi_package`: the record of a picked package; the extra
      dependencies are absent and default to none. */
  function PypiRecord(pkg: PypiPackage): (c: RepositoryConfig)
    ensures c.id == "pypi." + pkg.name && c.src.PyPI?
    ensures c.src.pypi == PyPISrc(Some(pkg.name), Some(pkg.version), pkg.url, pkg.filename)
    ensures c.extraDependencies == []
    ensures c.meta == RepositoryMeta(None, None, Some(pkg.downloads), None)
  {
    RepositoryConfig(
      "pypi." + pkg.name,
      PyPI(PyPISrc(Some(pkg.name), Some(pkg.version), pkg.url, pkg.filename)),
      [],
      RepositoryMeta(None, None, Some(pkg.downloads), None))
  }

  /** GitHub and PyPI ids never clash: they differ in their first
      characters. */
  lemma IdsDisjoint(repo: RepoEntry, pkg: PypiPackage)
    ensures GhRecord(repo).id != PypiRecord(pkg).id
  {
    assert GhRecord(repo).id[0] == 'g';
    assert PypiRecord(pkg).id[0] == 'p';
  }

  // ---------------------------------------------------------------------
  // The script

  const GitHubSplits: seq<int> := [1000, -1000]
  const PyPISplits: seq<int> := [3000, -3000]
  const CohortPicks: seq<nat> := [500, 500, 500]

  /** The resolution options the script writes: two packages that do not
      build in the analysis environment, and two extra wheel indexes. */
  const DatasetResolveOpts: ResolveOpts := ResolveOpts(
    ["pywin32", "gssapi"],
    ["https://download.pytorch.org/whl/torch_stable.html",
     "https://pytorch-geometric.com/whl/torch-2.3.0+cu121.html"])

  function PackageDownloads(p: PypiPackage): int {
    p.downloads
  }

  /** `sample` is 500 picks from each of the three `cohorts`, in some
      order: `picked[i]` are the picks of cohort `i`. */
  ghost predicate StratifiedPicks<T>(sample: seq<T>, picked: seq<seq<T>>, cohorts: seq<seq<T>>)
    requires |cohorts| == 3
  {
    && |picked| == 3
    && (forall i :: 0 <= i < 3 ==> |picked[i]| == 500)
    && (forall i, x :: 0 <= i < 3 && x in picked[i] ==> x in cohorts[i])
    && multiset(sample) == multiset(Flatten(picked))
  }

  /** One list's share of the script: sorted by popularity, most first,
      and sampled by cohorts, three cohorts of 500 picks each. `picked`
      holds the picks of each cohort, top, middle and bottom. */
  method PickSorted<T>(lst: seq<T>, popularity: T -> int, splits: seq<int>, draw: (nat, nat) -> nat, rand: nat -> nat)
    returns (r: Result<seq<T>, PickError>, picked: seq<seq<T>>)
    requires |splits| == 2
    ensures r.Ok? <==> NoEmptyPick(Cohorts(SortDesc(lst, popularity), splits), CohortPicks, 3)
    ensures r.Ok? ==> |r.value| == 1500 && forall x :: x in r.value ==> x in lst
    ensures r.Ok? ==> StratifiedPicks(r.value, picked, Cohorts(SortDesc(lst, popularity), splits))
  {
    var sorted := SortDesc(lst, popularity);
    r, picked := PickWithCohorts(sorted, splits, CohortPicks, draw, rand);
    if r.Ok? {
      assert Sum(CohortPicks) == 1500;
      FromSortedList(lst, sorted, splits, picked, r.value);
    }
  }

  /** The script: both lists sampled, and the picks turned into records,
      the GitHub ones first; `ghPicks` and `pypiPicks` are the picks. */
  method GenInputDataset(
    ghRepos: seq<RepoEntry>, packages: seq<PypiPackage>,
    ghDraw: (nat, nat) -> nat, ghRand: nat -> nat,
    pypiDraw: (nat, nat) -> nat, pypiRand: nat -> nat)
    returns (r: Result<DatasetConfig, PickError>, ghPicks: seq<RepoEntry>, pypiPicks: seq<PypiPackage>,
             ghCohortPicks: seq<seq<RepoEntry>>, pypiCohortPicks: seq<seq<PypiPackage>>)
    ensures r.Ok? <==>
      NoEmptyPick(Cohorts(SortDesc(ghRepos, EntryStars), GitHubSplits), CohortPicks, 3)
      && NoEmptyPick(Cohorts(SortDesc(packages, PackageDownloads), PyPISplits), CohortPicks, 3)
    ensures r.Ok? ==>
      && |ghPicks| == 1500 && |pypiPicks| == 1500
      && (forall x :: x in ghPicks ==> x in ghRepos)
      && (forall p :: p in pypiPicks ==> p in packages)
      && StratifiedPicks(ghPicks, ghCohortPicks, Cohorts(SortDesc(ghRepos, EntryStars), GitHubSplits))
      && StratifiedPicks(pypiPicks, pypiCohortPicks, Cohorts(SortDesc(packages, PackageDownloads), PyPISplits))
      && r.value.resolveDependenciesOpts == DatasetResolveOpts
      && |r.value.repos| == 3000
      && (forall k :: 0 <= k < 1500 ==> r.value.repos[k] == GhRecord(ghPicks[k]))
      && (forall k :: 0 <= k < 1500 ==> r.value.repos[1500 + k] == PypiRecord(pypiPicks[k]))
  {
    ghPicks, pypiPicks := [], [];
    var gh;
    gh, ghCohortPicks := PickSorted(ghRepos, EntryStars, GitHubSplits, ghDraw, ghRand);
    pypiCohortPicks := [];
    if gh.Err? {
      return Err(gh.error), ghPicks, pypiPicks, ghCohortPicks, pypiCohortPicks;
    }
    var pypi;
    pypi, pypiCohortPicks := PickSorted(packages, PackageDownloads, PyPISplits, pypiDraw, pypiRand);
    if pypi.Err? {
      return Err(pypi.error), ghPicks, pypiPicks, ghCohortPicks, pypiCohortPicks;
    }
    ghPicks, pypiPicks := gh.value, pypi.value;
    r := Ok(DatasetConfig(DatasetResolveOpts, Records(ghPicks, pypiPicks)));
  }

  /** The GitHub records, then the PyPI ones. */
  function Records(gh: seq<RepoEntry>, pypi: seq<PypiPackage>): (rs: seq<RepositoryConfig>)
    ensures |rs| == |gh| + |pypi|
    ensures forall k :: 0 <= k < |gh| ==> rs[k] == GhRecord(gh[k])
    ensures forall k :: 0 <= k < |pypi| ==> rs[|gh| + k] == PypiRecord(pypi[k])
  {
    seq(|gh|, k requires 0 <= k < |gh| => GhRecord(gh[k])) + seq(|pypi|, k requires 0 <= k < |pypi| => PypiRecord(pypi[k]))
  }

  /** The picks of a sorted list are elements of the original list. */
  lemma FromSortedList<T>(original: seq<T>, sorted: seq<T>, splits: seq<int>, picked: seq<seq<T>>, result: seq<T>)
    requires multiset(sorted) == multiset(original)
    requires |picked| == |splits| + 1
    requires forall i, x :: 0 <= i < |picked| && x in picked[i] ==> x in Cohorts(sorted, splits)[i]
    requires multiset(result) == multiset(Flatten(picked))
    ensures forall x :: x in result ==> x in original
  {
    forall x | x in result ensures x in original {
      assert x in multiset(Flatten(picked));
      var i := InFlatten(picked, x);
      PicksFromList(sorted, splits, i, x);
      assert x in multiset(sorted);
    }
  }

  /** The block an element of a flattened sequence comes from. */
  lemma {:induction false} InFlatten<T>(blocks: seq<seq<T>>, x: T) returns (i: nat)
    requires x in Flatten(blocks)
    ensures i < |blocks| && x in blocks[i]
    decreases |blocks|
  {
    assert Flatten(blocks) == blocks[0] + Flatten(blocks[1..]);
    if x in blocks[0] {
      i := 0;
    } else {
      assert x in Flatten(blocks[1..]);
      var j := InFlatten(blocks[1..], x);
      i := j + 1;
    }
  }
}
