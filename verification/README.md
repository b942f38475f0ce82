# A Dafny model of the gadget-analysis pipeline and its dataset scripts

The model covers two parts of the system. The first part is the Rust tool's end-to-end run. For each repository of a dataset, the tool:

- fetches the sources;
- resolves the dependencies with `uv`;
- runs the Pyre taint analysis;
- classifies the issues it reports;
- writes one JSON report per repository;
- collects the reports into a summary.

The labeling command lets a person label the issues of a finished run. It finds a run's analysis directory through a binary search over directory names.

The second part is the Python scripts that build the input dataset:

- paging through GitHub's repository search;
- pinning every repository to a commit;
- joining and sorting the results;
- choosing the best PyPI archive of each top package;
- sampling cohorts of repositories and packages into `dataset.toml`.

The model is written on immutable values. Directories, files, prompts, subprocesses, HTTP responses and the random generator are inputs: a sequence of entries, the text of a file, or a function standing for an oracle. Integers are unbounded.

| file | module | what it models |
|---|---|---|
| wrappers.dfy | Wrappers | `Option`, `Result` |
| strings.dfy | Strings | string order, split/join, decimal digits, stripping |
| search.dfy | Search | sorting strings, binary search, Rust's partition point |
| collate.dfy | Collate | first-occurrence deduplication, Python's stable descending sort, dict binding |
| errors.dfy | Errors | pipeline stages and stage-tagged errors |
| analyse_results.dfy | AnalyseResults | reading Pyre results, classifying issues, the summary text |
| config.dfy | Config | the dataset configuration |
| reports.dfy | Reports | allowed-repository filters and listing report files |
| pipeline.dfy | Pipeline | one repository's run, the whole run, the report outcome and the summary sections |
| labeling.dfy | Labeling | finding the analysis directory, relabeling issues |
| temp.dfy | Temp | finding the temp directory, reconciling labels |
| summary.dfy | Summary | compiling the summary of all reports |
| deps.dfy | Deps | discovering dependency files, exporting lockfiles, the `uv pip compile` command line |
| top_packages.dfy | TopPackages | wheel tags, the archive sort key, choosing the file to fetch |
| get_repos.dfy | GetRepos | link and rate-limit headers, search requests, page files, resuming |
| fetch_refs.dfy | FetchRefs | `revs.txt`, checking `git ls-remote`, the fetch loop |
| process_gh_data.dfy | ProcessGhData | joining repositories with their revs, both script versions |
| gen_dataset.dfy | GenDataset | cohort slicing, sampling, the dataset records |

## Model

| member | source | states |
|---|---|---|
| Errors.StagesClosed | tool/src/errors.rs:24-33 | There are exactly seven stages, pairwise distinct, and the stage list holds every stage. |
| Errors.WithStage | tool/src/errors.rs:43-48 | An `Ok` passes through unchanged. An `Err` becomes a pipeline error carrying the given stage and the original error. |
| AnalyseResults.FromResultsDir | tool/src/analyse/results.rs:26-54 | A malformed header fails. A version other than 3 gives the version-mismatch error with the version found and 3, before any record is read. The result is `Ok` iff the version is 3 and every record decodes; the `Ok` value is the issue records, in order. A record error names the first malformed record. |
| AnalyseResults.FindForward | tool/src/analyse/results.rs:180-186 | `None` iff no trace is named `forward`; otherwise the index of the first such trace. |
| AnalyseResults.ScanFeatures | tool/src/analyse/results.rs:188-203 | `One` iff no feature is a hit. `TwoPlus` iff the first hit is an `always-via` feature. `Conditional` iff the first hit is only a `via` feature. |
| AnalyseResults.FromIssueData | tool/src/analyse/results.rs:179-186 | The issue is unclassified (`NoForward`) iff it has no forward trace. |
| AnalyseResults.FirstForwardDecides | tool/src/analyse/results.rs:180-200 | Only the first forward trace decides the class; later traces do not matter. |
| AnalyseResults.Process | tool/src/analyse/results.rs:56-71 | One processed issue per record, in order, each classified as `FromIssueData` says. |
| AnalyseResults.Summarise | tool/src/analyse/results.rs:80-98 | The total is the number of issues. |
| AnalyseResults.SummariseAccounts | tool/src/analyse/results.rs:83-98 | The three bucket sizes plus the number of unclassified issues equal the total. |
| AnalyseResults.RenderSummary | tool/src/analyse/results.rs:99-149 | Each bucket has a header line carrying the bucket's size, followed by its entries in order, each `- at <file>, line <n>`. The headers come in the order one, two+, conditional. The last line is `Total issues: n`. |
| AnalyseResults.BucketCount | tool/src/analyse/results.rs:83-98 | A bucket has as many lines as there are issues of its class, counted independently as a multiset of classes. |
| AnalyseResults.BucketMembers | tool/src/analyse/results.rs:83-98 | A location is in a bucket iff some issue of that class has that location. |
| AnalyseResults.SummaryDescribesIssues | tool/src/analyse/results.rs:83-149 | In the rendered summary of a results file, each header's count reads back to the number of issues of its class. Each block lists the location of every issue of that class and of nothing else. The total line reads back to the number of issues. |
| Config.RepoIds | tool/src/e2e/mod.rs:43 | The ids of the dataset's repositories, one per repository, in order. |
| Search.SortStrings | tool/src/e2e/mod.rs:26 | The result is sorted and is a permutation of the input. |
| Search.BinarySearch | tool/src/e2e/mod.rs:33-35 | Over sorted items, with everything before the window below the key and everything after it above, the search finds the key iff it is among the items. |
| Search.Contains | tool/src/e2e/mod.rs:33-35 | Over sorted items, true iff the key is one of them. |
| Search.PartitionPoint | tool/src/e2e/labeling.rs:117-124 | Everything before the result satisfies the predicate and nothing from it on does, for a partitioned slice. |
| Reports.NewFiltered | tool/src/e2e/mod.rs:25-28 | A `Filtered` value whose items are sorted and are a permutation of the given ids. |
| Reports.IsAllowed | tool/src/e2e/mod.rs:30-37 | `All` allows every id; `Filtered` allows an id iff it is among the items. |
| Reports.FilteredAllowsExactly | tool/src/e2e/mod.rs:25-37 | A filter built from a list of ids allows exactly those ids. |
| Reports.FromDataset | tool/src/e2e/mod.rs:40-48 | Without a dataset everything is allowed; with one, the filter holds its repository ids. |
| Reports.DatasetAllowsItsRepos | tool/src/e2e/mod.rs:40-48 | A dataset's filter allows an id iff some repository of the dataset has it. |
| Reports.SplitAtDot | tool/src/e2e/mod.rs:62-64 | `None` iff the name is `..`, has no dot or starts its last dot at the front. Otherwise the name is the stem, a dot and the extension, with a non-empty stem and no dot in the extension. |
| Reports.ReportFileNameRoundTrip | tool/src/e2e/mod.rs:62-65 | For a non-empty id, `<id>.json` has extension `json` and stem id. `.json` alone has no extension. |
| Reports.ListedId | tool/src/e2e/mod.rs:60-66 | An entry is listed iff it is a file with a UTF-8 name, extension `json` and an allowed stem; its id is the stem. |
| Reports.ListedInSound | tool/src/e2e/mod.rs:59-68 | Every listed pair has an allowed id and a `.json` file whose stem is that id. |
| Reports.ListReports | tool/src/e2e/mod.rs:51-69 | A path that is not a directory gives an empty list. A failure to open it is passed on. Otherwise the result is `Ok` iff every entry reads, and it is then the listed entries in directory order. |
| Reports.ListEntries | tool/src/e2e/mod.rs:57-68 | `Ok` iff every entry reads, and it is then the listed entries in order. An error is the error of one of the entries. |
| Pipeline.Outcome | tool/src/e2e/pipeline.rs:404-414 | Strict priority, each case an iff: errors give `Errored`; otherwise warnings give `Warnings`; otherwise issues give `Issues`; otherwise `NoIssues`. |
| Pipeline.Section | tool/src/e2e/pipeline.rs:303-318 | A section is no longer than the report list and holds only reports with its outcome. |
| Pipeline.SectionMembers | tool/src/e2e/pipeline.rs:303-318 | A report is in section `o` iff it is among the reports and its outcome is `o`. |
| Pipeline.SectionCounts | tool/src/e2e/pipeline.rs:302-318 | The four section sizes add up to the number of reports. |
| Pipeline.OutcomeDetail | tool/src/e2e/pipeline.rs:342-381 | The detail is empty iff the outcome is `NoIssues`. Otherwise it opens with ` (` and the count that put the report in its section: errors, warnings or issues. An issues entry ends with ` issue(s))`. An error entry is ` (n error(s), <stage>)`, where `Unknown` stands for a missing stage. A warnings entry opens with the warning count and ends with the issue count. A non-empty detail ends in `)` and never in `d)`, so it cannot be mistaken for the cached mark. |
| Pipeline.DetailCountReadsBack | tool/src/e2e/pipeline.rs:342-381 | The number read back from a non-empty detail is the report's count of errors, warnings or issues, by outcome. An empty detail reads back no number. |
| Pipeline.ErrorDetailNamesStage | tool/src/e2e/pipeline.rs:352-363 | Two error entries with the same detail report the same number of errors and the same failing stage. |
| Pipeline.EntryLine | tool/src/e2e/pipeline.rs:340-382 | The line is `- <id>`, then the report's detail, then the cached mark exactly when the report comes from a previous run. A report from a previous run ends with the mark. Outside `NoIssues`, the line ends with the mark iff the report is from a previous run. |
| Pipeline.TarballName | tool/src/e2e/pipeline.rs:195-199 | The tarball name holds no `/` and ends in `.tar.gz`. |
| Pipeline.AnalysisDirNameSplit | tool/src/e2e/pipeline.rs:123-130 | Splitting the analysis directory name at its last `.` gives back the id and the milliseconds. |
| Pipeline.ArchiveKindOf | tool/src/e2e/pipeline.rs:243-263 | A missing file name is an error. A name ending in `.tar.gz` or `.tgz` gives `TarGz`. Otherwise one ending in `.zip` or `.whl` gives `Zip`, and otherwise one ending in `.tar.bz2` gives `TarBz2`. Each case is an iff. A non-UTF-8 name and an unrecognised suffix are errors. |
| Pipeline.GitHubTarballIsTarGz | tool/src/e2e/pipeline.rs:195-199 | The tarball name of a GitHub source is recognised as a gzipped tar archive. |
| Pipeline.RunRepo | tool/src/e2e/pipeline.rs:122-185 | A setup failure gives an error tagged `Setup`, and an analysis error is passed on. `Ok` iff setup and analysis succeed and either some issue was found or cleanup succeeded; any other error is tagged `Cleanup`. The report carries the analysis results, no errors, no elapsed time, and is not from a previous run. |
| Pipeline.ReadBack | tool/src/e2e/pipeline.rs:397-400 | A report read from disk is marked as from a previous run; every other field is as stored. |
| Pipeline.ErrorReport | tool/src/e2e/pipeline.rs:97-110 | The outcome is `Errored`, with the failing stage, exactly that one error, no issues, warnings or dependencies, and the elapsed time. |
| Pipeline.RunStep | tool/src/e2e/pipeline.rs:71-111 | A stored report is reused iff it is readable, and is then read back. Otherwise a fresh report gets the elapsed time, and a failure gives the error report. |
| Pipeline.FreshSuccessNotErrored | tool/src/e2e/pipeline.rs:92-96 | A fresh successful run never yields the `Errored` outcome; it has no error stage and carries the elapsed time. |
| Pipeline.Run | tool/src/e2e/pipeline.rs:61-115 | `Ok` iff every repository completes, that is, it is probed and either its report is reused or the fresh one is written. The reports are the steps' reports in dataset order. Only fresh reports whose probe and write succeeded are written, and on success every fresh report is. On `Err`, some repository is the first that does not complete, and every written report comes before it. |
| Labeling.DirCmp | tool/src/e2e/labeling.rs:117-122 | The comparison is never `Equal`. It is `Less` iff the name has no dot or its key is at most the id. |
| Labeling.FindAnalysisDirectory | tool/src/e2e/labeling.rs:113-132 | Over a partitioned list, a found directory has the id as its key and nothing after it sorts before the id. When nothing is found, every directory with the id as its key has a later one that sorts before the id. |
| Labeling.KeysSortedPartitioned | tool/src/e2e/labeling.rs:117-122 | If the names' keys are sorted, the comparison partitions the list. |
| Labeling.LabelingFindsLast | tool/src/e2e/labeling.rs:117-130 | With sorted keys, a directory for the id is found, and it is at or after any directory with that key. |
| Labeling.FoundAt | tool/src/e2e/labeling.rs:123-129 | With partition point `p > 0`, the result is the directory at `p - 1` if its key is the id, and `None` otherwise. |
| Labeling.FindsLatestRun | tool/src/e2e/labeling.rs:117-130 | Over `proj.100`, `proj.200`, `projX.50` and the id `proj`, the later run `proj.200` is found. |
| Labeling.LabelingKeyNotMonotone | tool/src/e2e/labeling.rs:117-122 | `proj-a.1` sorts before `proj.2`, yet the list is not partitioned for the id `proj`. |
| Labeling.LabelingMissesPrefixedId | tool/src/e2e/labeling.rs:117-130 | For the names `proj-a.1` and `proj.2`, the list is partitioned for the id `proj-a`, and the search as written finds nothing although `proj-a.1` exists. |
| Labeling.RelabelOnlyTouchesUnlabeled | tool/src/e2e/labeling.rs:138-146 | Relabeling keeps every issue's location, trace and count. A labeled issue, or one whose prompt failed, is unchanged. A prompted issue takes the answer. |
| Labeling.LabelsStick | tool/src/e2e/labeling.rs:138-140 | A label given in a first pass survives a second pass. |
| Labeling.PromptProject | tool/src/e2e/labeling.rs:135-150 | `Some` iff some issue is prompted, and then the relabeled issues. |
| Labeling.PromptUnlabeled | tool/src/e2e/labeling.rs:49-74 | `Ok` iff every report that needs rewriting is written. Only such reports are written, and on success all of them are. On `Err`, some report is the first whose rewrite fails, and every written report comes before it. |
| Temp.TempKey | tool/src/e2e/temp.rs:88-91 | A key exists iff the name has one; it is the name up to its last dot, dot included, and a prefix of the name. |
| Temp.TempCmp | tool/src/e2e/temp.rs:86-93 | The comparison is never `Equal`. It is `Less` iff there is no key or the key is at most the id followed by a dot. |
| Temp.FindTempDirectory | tool/src/e2e/temp.rs:82-103 | Over a partitioned list, a found directory has the id as its key, and nothing after it sorts before the id. When nothing is found, every directory with the id as its key has a later one that sorts before the id. |
| Temp.TempFindsLast | tool/src/e2e/temp.rs:86-100 | With sorted names and no clashing keys, a directory for the id is found, at or after any directory with that key. |
| Temp.TempFindsPrefixedId | tool/src/e2e/temp.rs:86-100 | For the names `proj-a.1` and `proj.2` and the id `proj-a`, the list is partitioned and `proj-a.1` is found. |
| Temp.MatchIndices | tool/src/e2e/temp.rs:122-126 | Exactly the indices of the stored issues with the given trace. |
| Temp.Reconcile | tool/src/e2e/temp.rs:120-144 | `Ok` iff every fresh issue matches exactly one stored issue. An error gives the match count of the first one that does not. On success each stored issue is updated, and `changed` is true iff some step changes a stored issue's `getattr_count`. |
| Temp.UnchangedMeansUntouched | tool/src/e2e/temp.rs:134-144 | If no step changes a `getattr_count`, every issue is exactly as it was. |
| Temp.ReconcileSettles | tool/src/e2e/temp.rs:134-144 | After reconciling once, every fresh issue still matches exactly once and no step changes anything. |
| Temp.TempPass | tool/src/e2e/temp.rs:33-59 | `Ok` iff every visit succeeds. An error comes from the first failing visit, with an unreadable results file passed on, and every written report comes before that visit. Only visits that rewrite are written, and on success all of them are. |
| Temp.Visit | tool/src/e2e/temp.rs:39-55 | `Ok` iff the visit succeeds, and the result says whether the file is rewritten. An unreadable results file is passed on. |
| Summary.EntryOf | tool/src/e2e/summary.rs:77-105 | GitHub reports give the full name and stars; PyPI reports give the package name and downloads. The error stage, raw count and elapsed time are copied. Each issue keeps its count and label. |
| Summary.ErrorReportSummary | tool/src/e2e/summary.rs:95-102 | An error report's entry names its stage, has no issues, a raw count of zero and the elapsed time. |
| Summary.SummariseReports | tool/src/e2e/summary.rs:44-50 | `Ok` iff every report loads, giving one entry per report in order. An error is the first load error. |
| Summary.CompileSummary | tool/src/e2e/summary.rs:39-54 | A listing error is passed on. Otherwise `Ok` iff every listed report reads, with one entry per listed report, in order. |
| Deps.FromDirEntry | tool/src/python/deps.rs:125-158 | An entry without a name is skipped. A type error is passed on, and a directory is skipped. A file is recognised by name as `pyproject.toml`, `setup.py`/`setup.cfg`, `uv.lock`, `pylock` or a requirements file, in that order. An unreadable `pyproject.toml` is an error. |
| Deps.Discover | tool/src/python/deps.rs:164-169 | `Ok` iff every entry reads and is recognised without error. The value is the discovered files, and none of them is a `setup.cfg`. |
| Deps.ExportExistingLockfiles | tool/src/python/deps.rs:171-216 | `Ok` iff no export stops the run, and each file is then exported in place. An error comes from the first file that stops it: `pylock` files are unsupported, and a failed export is passed on. |
| Deps.ExportLeavesNoLockfile | tool/src/python/deps.rs:175-215 | After a successful export no `uv.lock` or `pylock` file remains. |
| Deps.KeptFiles | tool/src/python/deps.rs:32-37 | A file is kept iff it is among the files and is not a `setup.py` unless it is the only file. |
| Deps.FlagPairsAt | tool/src/python/deps.rs:42-57 | Each value is preceded by its flag. |
| Deps.FlagPairsRoundTrip | tool/src/python/deps.rs:42-57 | Reading the flag pairs back gives the values. |
| Deps.FixedArgs | tool/src/python/deps.rs:59-71 | `pip compile`, then `--all-extras` iff some kept file supports extras; the lockfile path comes last. |
| Deps.FlagArgs | tool/src/python/deps.rs:42-57 | The `--group` pairs, then the `--no-emit-package` pairs, then the `--find-links` pairs. |
| Deps.CompileArgs | tool/src/python/deps.rs:60-76 | The fixed arguments, the flag arguments, `--`, then the paths of the kept files. |
| Deps.CompileArgsExtras | tool/src/python/deps.rs:32-41 | `--all-extras` is passed iff some kept file supports extras. |
| Deps.PlanCompile | tool/src/python/deps.rs:25-76 | A discovery error becomes an I/O error, and success implies discovery succeeded. With one export result per file, the plan succeeds iff no export stops it. A successful plan is the `uv` command line for the kept files after export, with the lockfile at `pylock.toml` in the work directory. Otherwise the error is the one of the first file that stops the export: a pylock file, or a `uv.lock` whose export failed. |
| TopPackages.ParseArch | data/pypi/get-top-packages.py:122-129 | Each known architecture name maps to its code, as an iff; every other name maps to the `other` code. |
| TopPackages.ParseBinaryFormat | data/pypi/get-top-packages.py:132-145 | Each known macOS format name maps to its code, as an iff; every other name maps to the `other` code. |
| TopPackages.ParsePlatformTag | data/pypi/get-top-packages.py:75-119 | Exact tags give their one-element tuple. Every result starts with a known platform code. Failure is possible only for manylinux, musllinux and macOS tags. A tag with no exact name and none of the family prefixes gives `(P_OTHER,)`. |
| TopPackages.Manylinux1Tag | data/pypi/get-top-packages.py:93-95 | `manylinux1_arch` gives the manylinux1 code and the architecture code. |
| TopPackages.Manylinux2010Tag | data/pypi/get-top-packages.py:96-98 | `manylinux2010_arch` gives the manylinux2010 code and the architecture code. |
| TopPackages.Manylinux2014Tag | data/pypi/get-top-packages.py:99-101 | `manylinux2014_arch` gives the manylinux2014 code and the architecture code. |
| TopPackages.LinuxTag | data/pypi/get-top-packages.py:102-104 | `linux_arch` gives the linux code and the architecture code. |
| TopPackages.ManylinuxTag | data/pypi/get-top-packages.py:87-92 | `manylinux_X_Y_arch` gives the manylinux code, the architecture code, and `-X`, `-Y`. |
| TopPackages.MusllinuxTag | data/pypi/get-top-packages.py:105-110 | `musllinux_X_Y_arch` gives the musllinux code, the architecture code, and `-X`, `-Y`. |
| TopPackages.MacosTag | data/pypi/get-top-packages.py:112-117 | `macosx_X_Y_format` gives the macOS code, `-X`, `-Y` and the format code. |
| TopPackages.NewerGlibcFirst | data/pypi/get-top-packages.py:87-92 | A newer glibc sorts before an older one on the same architecture. |
| TopPackages.ParseAbiTag | data/pypi/get-top-packages.py:148-161 | `none` and `abi3` give their codes. Failure is possible only for a `cp` tag with fewer than two digits. Every result starts with a known ABI code. |
| TopPackages.CpythonAbiTag | data/pypi/get-top-packages.py:153-158 | `cpXY` with an optional `t` gives the CPython code, `-X`, `-Y` and the free-threading rank. |
| TopPackages.ParseLanguageTag | data/pypi/get-top-packages.py:164-182 | `none` gives its code. The `other` code is given iff the tag is neither `none` nor a `py`, `cp` or `pp` tag. |
| TopPackages.PythonLanguageTag | data/pypi/get-top-packages.py:167-171 | `pyX` gives the Python code, `-X` and 0; `pyXY` gives the Python code, `-X` and `-Y`. |
| TopPackages.KeyCmp | data/pypi/get-top-packages.py:276 | Python's tuple comparison of two sort keys is `Equal` iff the keys are equal, and a wheel sorts before a source archive. |
| TopPackages.KeyLtTrans | data/pypi/get-top-packages.py:276 | The order on sort keys is transitive. |
| TopPackages.SdistStem | data/pypi/get-top-packages.py:196-206 | `None` iff the name ends in none of `.tar.gz`, `.tar.bz2`, `.tgz`, `.zip`. Otherwise the name is the stem followed by one of them. |
| TopPackages.WheelFields | data/pypi/get-top-packages.py:215-230 | Five fields give an empty build tag; six fields give a build tag. Any other count fails (the script's `assert False`). |
| TopPackages.ProductKeys | data/pypi/get-top-packages.py:231-243 | One key per combination of language, ABI and platform tag, and every combination is present. |
| TopPackages.WheelKeys | data/pypi/get-top-packages.py:231-237 | `Some` iff every tag of each dotted list parses. There is then one key per combination, each a wheel key with the name's build tag. |
| TopPackages.FileCandidates | data/pypi/get-top-packages.py:192-243 | A non-wheel gives one source-archive candidate iff it has an archive suffix and its stem ends in `-latest`, and no candidate otherwise. Every candidate has the file's URL and name and the latest version. A wheel with candidates has the latest version and five or six fields. |
| TopPackages.WheelOfLatest | data/pypi/get-top-packages.py:215-243 | A five-field wheel of the latest version, with one parsed tag of each kind, gives exactly the one wheel candidate for those tags. |
| TopPackages.FetchFiles | data/pypi/get-top-packages.py:185-243 | `Some` iff every file's candidates are defined, and then the candidates are exactly those of the files. |
| TopPackages.BestArchive | data/pypi/get-top-packages.py:276 | `None` iff there are no candidates. Otherwise no candidate is smaller than the chosen one, and every earlier candidate is larger, so it is the first smallest (Python's stable `sorted(...)[0]`). A wheel is chosen whenever there is one. |
| TopPackages.ToFetch | data/pypi/get-top-packages.py:248-272 | A package is fetched iff it is among the top packages, not cached and not on the deny list. |
| TopPackages.FetchPositionsExact | data/pypi/get-top-packages.py:248-272 | The positions counted by the order statement are exactly those whose package is neither cached nor on the deny list. |
| TopPackages.ToFetchKeepsOrder | data/pypi/get-top-packages.py:248-272 | The packages to fetch keep the ranking order: the k-th one is the package at the k-th position of the ranking, counting up, that is neither cached nor on the deny list. |
| GetRepos.ParseLink | data/github/01_get_repos.py:24-28 | `None` iff the separator is missing. Otherwise the relation is the second part less its last character and the URL is the first part less its first. |
| GetRepos.ParseLinkItem | data/github/01_get_repos.py:19-28 | A link `<url>; rel="name"` whose URL and relation hold no `>` parses back to `(name, url)`. |
| GetRepos.ParseLinkItems | data/github/01_get_repos.py:21-28 | `Some` iff every link parses; the links are parsed one to one, in order. |
| GetRepos.ParseLinkHeader | data/github/01_get_repos.py:19-29 | `Some` iff every link parses; every relation is then bound to the URL of its last link. |
| GetRepos.LinkHeaderRoundTrip | data/github/01_get_repos.py:19-29 | A non-empty header rendered from links that hold no `>` or `,` is read back as those links, bound by relation. |
| GetRepos.TwoLinks | data/github/01_get_repos.py:19-29 | A header with relations `a` and `b` gives both URLs. |
| GetRepos.RepeatedRelKeepsLast | data/github/01_get_repos.py:23-28 | A header with the relation `a` twice keeps the second URL. |
| GetRepos.LinksOf | data/github/01_get_repos.py:56-60 | A missing or empty `link` header gives no links; any other header is parsed. |
| GetRepos.ParseRateLimit | data/github/01_get_repos.py:32-39 | `Some` iff all four integer headers are numbers and the resource header is present; the fields are those values. |
| GetRepos.RateLimitRoundTrip | data/github/01_get_repos.py:32-39 | The rate limit is read back from the headers GitHub sends for it. |
| GetRepos.BuildBaseRequest | data/github/01_get_repos.py:70-85 | No URL iff the bound is positive and below 1000. With no bound (or 0) the query is `stars:>1000`; with a bound of at least 1000 it is `stars:1000..bound`. |
| GetRepos.GetNextRequest | data/github/01_get_repos.py:88-101 | An empty result or no links stops the search. A `next` link is followed. Otherwise a new query is built from the last item's stars; there is none when there are no items. |
| GetRepos.RestartBelowThresholdStops | data/github/01_get_repos.py:98-101 | A restart whose last item has between 1 and 999 stars gives a request without a URL, which ends the search. |
| GetRepos.MatchPageFile | data/github/01_get_repos.py:12 | A whole-name match is the result. Any other match is the name less a final newline matching whole. |
| GetRepos.PageFileNameRoundTrip | data/github/01_get_repos.py:139 | The name written for page `n` matches the page pattern with group `n`. |
| GetRepos.TryResumeAsWritten | data/github/01_get_repos.py:104-114 | Fails iff some regular file does not match the pattern, and names such a file. Otherwise the result is the first page file with the largest page number. |
| GetRepos.ScanLatest | data/github/01_get_repos.py:107-113 | Fails iff some element is rejected, and gives the index of the first one. Otherwise the result is the first element with the largest number. |
| GetRepos.LatestByIsMax | data/github/01_get_repos.py:107-113 | `None` iff no element has a number. Otherwise the result is the name and number of some numbered element, and no number is larger. |
| GetRepos.LatestPageIsMax | data/github/01_get_repos.py:107-115 | No page is found iff there is no page file. Otherwise the page is one of the page files and has the largest page number. |
| GetRepos.TryResume | data/github/01_get_repos.py:104-115 | Skipping non-page files: `None` iff there are no page files. Otherwise a page file with the largest number. |
| GetRepos.Resume | data/github/01_get_repos.py:115-120 | Resuming continues at the page after the latest one, with the request its saved response leads to. |
| GetRepos.ResumeAsWrittenFails | data/github/01_get_repos.py:108-111 | On a directory holding page 1 and `revs.txt`, the scan as written fails, naming `revs.txt`. |
| GetRepos.ResumeSkipsOtherFiles | data/github/01_get_repos.py:108-113 | On the same directory, skipping non-page files resumes from page 1. |
| FetchRefs.PageFiles | data/github/02_fetch_refs.py:12-15 | A name is read iff it is a regular file matching the page pattern. |
| FetchRefs.ResumedPageIsRead | data/github/02_fetch_refs.py:12-15 | The page the search step would resume from is among the pages read here. |
| FetchRefs.FileLines | data/github/02_fetch_refs.py:26 | Iterating a file gives non-empty lines. |
| FetchRefs.FileLinesConcat | data/github/02_fetch_refs.py:26 | Whole lines written one after the other are read back as written. |
| FetchRefs.AppendedLines | data/github/02_fetch_refs.py:24-26 | Lines appended to a file that ends its last line are read after the old lines. |
| FetchRefs.ReadKey | data/github/02_fetch_refs.py:27-30 | `None` iff the line has fewer than three tab-separated fields (where `data[2]` raises). |
| FetchRefs.RevLineKey | data/github/02_fetch_refs.py:27-30 | A written rev line is read back as its id and branch. |
| FetchRefs.LsRemoteFields | data/github/02_fetch_refs.py:54-55 | The first line always splits into at least one field. |
| FetchRefs.AcceptRev | data/github/02_fetch_refs.py:53-59 | `Ok` iff stderr is empty, the ref field is `refs/heads/<branch>` and the rev has 40 characters; the value is then the rev, free of tabs and newlines. The error is the stderr one iff stderr is not empty. |
| FetchRefs.AcceptHeadLine | data/github/02_fetch_refs.py:49-59 | A 40-character rev reported for the requested branch is accepted. |
| FetchRefs.RejectOtherBranch | data/github/02_fetch_refs.py:56-57 | The head of another ref is refused, naming that ref. |
| FetchRefs.RejectShortRev | data/github/02_fetch_refs.py:58-59 | A rev of another length is refused, naming it. |
| FetchRefs.FetchEach | data/github/02_fetch_refs.py:35-61 | The repositories are visited in order until one is refused, and the refusal is recorded. Each accepted repository writes `rev<TAB>id<TAB>branch`. |
| FetchRefs.FetchAll | data/github/02_fetch_refs.py:35-61 | The loop computes the run `FetchEach` describes. |
| FetchRefs.FetchRefs | data/github/02_fetch_refs.py:21-61 | A malformed `revs.txt` fails with nothing written. Otherwise the first occurrences of keys not yet known are fetched. |
| FetchRefs.FetchedOnce | data/github/02_fetch_refs.py:38-45 | No key is fetched twice, and no key already known is fetched. |
| FetchRefs.WrittenLines | data/github/02_fetch_refs.py:61 | Each written line is whole and reads back as its repository's key. |
| FetchRefs.RepoRevLine | data/github/02_fetch_refs.py:39-41 | The line for a repository is whole and reads back as `(str(id), branch)`. |
| FetchRefs.WrittenKeys | data/github/02_fetch_refs.py:41-45 | The keys of the written lines are those of the fetched repositories. |
| FetchRefs.ResumeSeesFetched | data/github/02_fetch_refs.py:24-30 | After a run, reading `revs.txt` again gives the keys known before plus those fetched, and the file still ends its last line. |
| ProcessGhData.UniqueItems | data/github/03_process_raw_gh_data.py:33-41 | No two kept items share an id. Every kept item is from the pages. The first item of each id is kept. |
| ProcessGhData.ParseRevLine | data/github/03_process_raw_gh_data.py:26-29 | `Some` iff the stripped line has exactly three tab-separated fields. |
| ProcessGhData.ParseRevLines | data/github/03_process_raw_gh_data.py:24-29 | `Some` iff every line parses, one to one, in order. |
| ProcessGhData.ParseRevs | data/github/03_process_raw_gh_data.py:23-29 | `Some` iff every line parses; each key is then bound to the rev of its last line. |
| ProcessGhData.RevLineParses | data/github/03_process_raw_gh_data.py:26-29 | A line of the rev-fetching step, with non-empty fields free of whitespace, parses back to its key and rev. |
| ProcessGhData.RevsRoundTrip | data/github/03_process_raw_gh_data.py:23-29 | A `revs.txt` of well-formed lines reads back as the binding of its entries. |
| ProcessGhData.JoinRevs | data/github/03_process_raw_gh_data.py:43-52 | `Ok` iff every item's key has a rev. Each entry carries its item's fields and rev. The error is the first missing key. |
| ProcessGhData.ProcessRepos | data/github/03_process_raw_gh_data.py:33-54 | `Ok` iff every unique item has a rev. The result is sorted by stars, most first, is a permutation of the joined entries, and keeps their order among equal stars. An error is a missing key of some item. |
| ProcessGhData.ProcessRaw03 | data/github/03_process_raw_gh_data.py:23-54 | A malformed rev line fails. Otherwise the result is that of `ProcessRepos`, with a missing key reported as such. |
| ProcessGhData.RecordedRevUsed | data/github/03_process_raw_gh_data.py:29-50 | If every unique item's key was recorded, the run succeeds and each unique item appears with the last rev recorded for it. |
| ProcessGhData.HomepageOrEmpty | data/github/process_raw_gh_data.py:37 | A present homepage is kept. The result is empty iff the homepage is missing or empty. |
| ProcessGhData.RawEntries | data/github/process_raw_gh_data.py:33-41 | One entry per item, in order. |
| ProcessGhData.ProcessRawRepos | data/github/process_raw_gh_data.py:23-43 | The result is sorted by stars, most first, and is a permutation of the entries of the unique items. |
| ProcessGhData.ProcessRawEntries | data/github/process_raw_gh_data.py:33-41 | Every entry comes from an item and has the fixed `test` field; the first item of each id is present. |
| ProcessGhData.ProcessRawStable | data/github/process_raw_gh_data.py:43 | Entries with equal stars keep their page order. |
| Collate.DedupFirst | data/github/03_process_raw_gh_data.py:36-41 | The loop keeps exactly the first occurrences of unseen ids and ends with the seen set plus every id. |
| Collate.FirstOccurrencesDistinct | data/github/03_process_raw_gh_data.py:36-41 | No two kept elements share an id, no kept id was already seen, and the kept ids are all the ids not seen before. |
| Collate.FirstOccurrencesSubseq | data/github/03_process_raw_gh_data.py:36-41 | Kept elements come from the input, none more often than there. |
| Collate.FirstOccurrenceKept | data/github/03_process_raw_gh_data.py:36-41 | An element whose id is unseen and differs from every earlier id is kept. |
| Collate.SortDesc | data/github/03_process_raw_gh_data.py:54 | The result is sorted, most first, and is a permutation of the input. |
| Collate.SortDescStable | data/github/03_process_raw_gh_data.py:54 | Elements with the same key keep their order. |
| Collate.BindKeepsLast | data/github/03_process_raw_gh_data.py:29 | A key is bound iff some pair has it, and it is bound to the value of its last pair. |
| GenDataset.SliceBound | data/gen_input_dataset.py:12 | A bound in range is kept. A bound past the end is the length. A negative bound counts from the end, and below minus the length it is 0. |
| GenDataset.PySlice | data/gen_input_dataset.py:12 | The elements between the normalised bounds, or empty when they cross. |
| GenDataset.Bounds | data/gen_input_dataset.py:10 | The bounds are `0`, then the splits, then no bound. |
| GenDataset.Cohorts | data/gen_input_dataset.py:10-12 | One cohort per adjacent pair of bounds, each the slice between them. |
| GenDataset.ThreeCohorts | data/gen_input_dataset.py:37-41 | When top plus bottom fit in the list, the splits `[top, -bottom]` cut it into the first `top`, the middle and the last `bottom`, which flatten back to the list. |
| GenDataset.ShortListEmptiesMiddle | data/gen_input_dataset.py:37-41 | When the list is no longer than top plus bottom, the middle cohort is empty. |
| GenDataset.Choices | data/gen_input_dataset.py:17 | `k` picks, each an element of the cohort. |
| GenDataset.Shuffle | data/gen_input_dataset.py:20 | The shuffle keeps the length and is a permutation. |
| GenDataset.DrawAll | data/gen_input_dataset.py:15-17 | Fails iff some cohort asked for picks is empty, naming the first one. Otherwise each cohort gives its number of picks, all its own, and their concatenation is the result. |
| GenDataset.PickWithCohorts | data/gen_input_dataset.py:8-21 | A mismatch between the numbers of splits and picks fails, as an iff. Otherwise it succeeds iff no cohort asked for picks is empty, naming the first one that is. A result has the total number of picks, each cohort's picks from that cohort, shuffled. |
| GenDataset.PicksFromList | data/gen_input_dataset.py:12-17 | Every element of a cohort is an element of the list. |
| GenDataset.GhId | data/gen_input_dataset.py:74 | The id starts with `gh.`, is 3 longer than the full name and holds no `/`. |
| GenDataset.GhIdOfFullName | data/gen_input_dataset.py:72-74 | `owner/name` gives `gh.owner.name`. |
| GenDataset.GhIdInjective | data/gen_input_dataset.py:72-74 | Two repositories whose owners hold no dot and whose ids are equal have the same owner and name. |
| GenDataset.TruthyHomepage | data/gen_input_dataset.py:67-69 | The homepage is kept iff it is present and not empty. |
| GenDataset.GhRecord | data/gen_input_dataset.py:62-84 | The record has the GitHub id, the source with the rev and an empty base directory, no extra dependencies, the URL and the stars. It has a homepage iff the repository has a non-empty one. |
| GenDataset.PypiRecord | data/gen_input_dataset.py:87-102 | The record has the `pypi.` id, the name, version, URL and file name, no extra dependencies, and only the downloads as metadata. |
| GenDataset.IdsDisjoint | data/gen_input_dataset.py:74-93 | GitHub and PyPI ids never clash. |
| GenDataset.PickSorted | data/gen_input_dataset.py:35-41 | Succeeds iff no cohort of the popularity-sorted list is empty. The result then has 1500 picks, all from the list, and is a rearrangement of three groups of 500 picks each: one from the top cohort, one from the middle cohort and one from the bottom cohort of the popularity-sorted list. |
| GenDataset.GenInputDataset | data/gen_input_dataset.py:31-118 | Succeeds iff both samplings succeed. There are then 1500 picks of each kind, all from their list. Each kind is a rearrangement of 500 picks from each of the three cohorts of its popularity-sorted list: by stars at splits 1000/-1000 for GitHub, by downloads at 3000/-3000 for PyPI. There are 3000 records: the GitHub records first, then the PyPI records, each for its pick. The resolution options are the two denylisted packages and two extra wheel indexes the script writes. |
| GenDataset.Records | data/gen_input_dataset.py:105-107 | The GitHub records in order, then the PyPI records in order. |
| GenDataset.FromSortedList | data/gen_input_dataset.py:35-41 | Picks from the cohorts of a permuted copy, then shuffled, are elements of the original list. |

## Left out

- I/O is not modelled. Directories, files, JSON/TOML/serde decoding, HTTP and `git`/`uv`/`pyre` subprocesses are inputs: directory entries in the order the OS returns them, file text, or oracle functions.
- Timing and sleeping are not modelled. Clocks and the rate-limit sleeps are out of the model; the elapsed time is an input.
- Console output and interactive prompts are not modelled. Prompts are a sequence of answers, where `None` stands for a failed prompt.
- Archive decoding (tar, zip) is not modelled. Only the choice of archive kind by file name is.
- Rust's `binary_search_by` is modelled as the partition point of its comparator. Rust leaves the result unspecified for a comparator that does not partition the slice, so the properties require sorted keys.
- Python's `int()` is modelled on ASCII digit strings only. Signs, underscores, surrounding whitespace and non-ASCII digits are not accepted by the model.
- Text is a sequence of characters. Universal newlines and UTF-8 decoding are not modelled.
- Search pages are pre-parsed to the fields the scripts read.
- `random.choices` and `random.shuffle` draw from oracle functions. The shuffle follows CPython's Fisher–Yates loop.
- Counts that are `u32` in the source are unbounded naturals, because no count in the source comes near the limit.
- The Pyre issue record is abstracted to its location, its traces and their features. The code's version check and decoding are modelled; the full record layout is not.
- Issues are not filtered by feature: `process` (tool/src/analyse/results.rs:56-71) classifies every record, and so does the model.
- GenDataset.GenInputDataset: does not state that the cohorts of one list are disjoint. For a list shorter than `top + bottom`, the top and bottom cohorts overlap.
- AnalyseResults.Summarise: states only the total. How the buckets partition the issues is stated by `SummariseAccounts`, and what each bucket holds by `BucketCount` and `BucketMembers`.
- Deps.PlanCompile: takes the export results as an aligned sequence. A length mismatch is reported as an I/O error that the source cannot reach.
- FetchRefs.WrittenLines: takes the absence of tabs and newlines in accepted revs as a precondition (`CleanVerdicts`). `VerdictsClean` proves that precondition for the verdicts built from `git` output.
- Labeling.PromptUnlabeled and Temp.TempPass: take the analysis directory of each project and the project listing as inputs. They are not connected to `FindAnalysisDirectory` and `FindTempDirectory`. The error path of listing the reports or the analysis directories (`list_reports()?`, `list_analysis()?`; tool/src/e2e/labeling.rs:50-51, tool/src/e2e/temp.rs:34-35) is not modelled.
- Labeling.PromptProject: a successful prompt that chooses "unlabeled" still counts as a change, as in the code.

## Findings

| source | as written | input that shows it | evidently intended | confidence | as-written member | corrected member |
|---|---|---|---|---|---|---|
| tool/src/e2e/labeling.rs:117-130 | The binary search compares the name up to its last dot with the id. Names sorted as whole paths do not keep that key in order. | The names `proj-a.1` and `proj.2` with the id `proj-a`: nothing is found, although `proj-a.1` exists. | Compare the key with its dot (`id.`), as the temp-directory search does. | not executed | Labeling.LabelingMissesPrefixedId | Temp.TempFindsPrefixedId |
| data/github/01_get_repos.py:109-111 | Every regular file of the data directory is matched against the page pattern, and the group is taken even when there is no match. | A data directory holding `search-page0001.json` and `revs.txt` (the rev-fetching step writes it there): `None.group(1)` raises. | Skip files that do not match, as the later scripts over the same directory do. | not executed | GetRepos.ResumeAsWrittenFails | GetRepos.ResumeSkipsOtherFiles |
