/** `summary.json` (tool/src/e2e/summary.rs): one entry per allowed
    report, keeping the repository's platform, name and popularity, the
    error stage, the raw issue count, each issue's getattr count and label,
    and the elapsed time. Reading a report file is an input here. */
module Summary {
  import opened Wrappers
  import opened Errors
  import opened Config
  import opened AnalyseResults
  import opened Pipeline

  datatype Platform = GitHubPlatform | PyPIPlatform

  datatype IssueSummary = IssueSummary(getattrCount: GetAttrCount, issueLabel: IssueLabel)

  datatype SummaryEntry = SummaryEntry(
    platform: Platform,
    name: string,
    popularity: nat,
    errorStage: Option<PipelineStage>,
    rawIssueCount: nat,
    issues: seq<IssueSummary>,
    elapsedSeconds: Option<nat>)

  /** `From<ProcessedIssue> for IssueSummary`: location and trace dropped. */
  function IssueSummaryOf(issue: ProcessedIssue): IssueSummary {
    IssueSummary(issue.getattrCount, issue.issueLabel)
  }

  /** `From<Report> for SummaryEntry`: a GitHub repository is named by its
      full name and ranked by stars, a PyPI one by its package name and
      downloads; a missing name is empty and a missing count is zero. */
  function EntryOf(report: Report): (e: SummaryEntry)
    ensures e.platform == GitHubPlatform <==> report.repositoryConfig.src.GitHub?
    ensures report.repositoryConfig.src.GitHub? ==>
      e.name == report.repositoryConfig.src.gh.fullName
      && e.popularity == report.repositoryConfig.meta.stars.GetOr(0)
    ensures report.repositoryConfig.src.PyPI? ==>
      e.name == report.repositoryConfig.src.pypi.name.GetOr("")
      && e.popularity == report.repositoryConfig.meta.downloads.GetOr(0)
    ensures e.errorStage == report.errorStage && e.rawIssueCount == report.rawIssueCount
    ensures e.elapsedSeconds == report.elapsedSeconds
    ensures |e.issues| == |report.issues|
    ensures forall k :: 0 <= k < |e.issues| ==>
      e.issues[k].getattrCount == report.issues[k].getattrCount
      && e.issues[k].issueLabel == report.issues[k].issueLabel
  {
    var meta := report.repositoryConfig.meta;
    var (platform, name, popularity) :=
      match report.repositoryConfig.src
      case GitHub(gh) => (GitHubPlatform, gh.fullName, meta.stars.GetOr(0))
      case PyPI(pypi) => (PyPIPlatform, pypi.name.GetOr(""), meta.downloads.GetOr(0));
    SummaryEntry(platform, name, popularity, report.errorStage, report.rawIssueCount,
                 seq(|report.issues|, k requires 0 <= k < |report.issues| => IssueSummaryOf(report.issues[k])),
                 report.elapsedSeconds)
  }

  /** A failed run shows up in the summary with its stage and no issues. */
  lemma ErrorReportSummary(repo: RepositoryConfig, e: PipelineError, elapsed: nat)
    ensures var s := EntryOf(ErrorReport(repo, e, elapsed));
      s.errorStage == Some(e.stage) && s.issues == [] && s.rawIssueCount == 0
      && s.elapsedSeconds == Some(elapsed)
  {
  }

  /** Summarising the reports in order: every report must have been read,
      and the first one that was not fails the summary with its error. */
  function SummariseReports(loaded: seq<Result<Report, string>>): (r: Result<seq<SummaryEntry>, string>)
    ensures r.Ok? <==> forall k :: 0 <= k < |loaded| ==> loaded[k].Ok?
    ensures r.Ok? ==> |r.value| == |loaded| && forall k :: 0 <= k < |loaded| ==> r.value[k] == EntryOf(loaded[k].value)
    ensures r.Err? ==>
      exists k :: 0 <= k < |loaded| && loaded[k] == Err(r.error) && forall j :: 0 <= j < k ==> loaded[j].Ok?
  {
    if |loaded| == 0 then Ok([])
    else if loaded[0].Err? then Err(loaded[0].error)
    else
      match SummariseReports(loaded[1..])
      case Err(e) =>
        ghost var k :| 0 <= k < |loaded[1..]| && loaded[1..][k] == Err(e) && forall j :: 0 <= j < k ==> loaded[1..][j].Ok?;
        assert loaded[k + 1] == Err(e);
        Err(e)
      case Ok(rest) => Ok([EntryOf(loaded[0].value)] + rest)
  }

  /** `compile_summary_json`: given the result of listing the allowed
      reports (`ListReports`), read each (`read` stands for `Report::read`
      on its path) and summarise them; a listing error is passed on. */
  function CompileSummary(listing: Result<seq<(string, string)>, string>, read: string -> Result<Report, string>)
    : (r: Result<seq<SummaryEntry>, string>)
    ensures listing.Err? ==> r == Err(listing.error)
    ensures listing.Ok? ==>
      (r.Ok? <==> forall k :: 0 <= k < |listing.value| ==> read(listing.value[k].1).Ok?)
    ensures listing.Ok? && r.Ok? ==>
      |r.value| == |listing.value|
      && forall k :: 0 <= k < |listing.value| ==> r.value[k] == EntryOf(read(listing.value[k].1).value)
  {
    var listed :- listing;
    var loaded := seq(|listed|, k requires 0 <= k < |listed| => read(listed[k].1));
    assert forall k :: 0 <= k < |listed| ==> loaded[k] == read(listed[k].1);
    SummariseReports(loaded)
  }
}
