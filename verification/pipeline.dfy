/** The end-to-end pipeline's report lifecycle (tool/src/e2e/pipeline.rs):
    the report record and its outcome, the per-repository
    resume-or-analyse loop, the stages of analysing one repository, the
    names it derives for tarballs and analysis directories, the archive
    dispatch by suffix, and the partition behind the run summary.

    Downloads, archive decoding, the analyser and the file system are
    inputs: each step that can fail is given as a `Result`. */
module Pipeline {
  import opened Wrappers
  import opened Strings
  import opened Errors
  import opened Config
  import opened AnalyseResults

  /** A resolved dependency (tool/src/python/mod.rs). */
  datatype PipPackage = PipPackage(name: string, version: Option<string>)

  /** Rust's `Report`. `previousRun` is not serialised: a report read back
      from disk always has it set. */
  datatype Report = Report(
    repositoryConfig: RepositoryConfig,
    warnings: seq<string>,
    errorStage: Option<PipelineStage>,
    errors: seq<string>,
    rawIssueCount: nat,
    issues: seq<ProcessedIssue>,
    resolvedDependencies: seq<PipPackage>,
    elapsedSeconds: Option<nat>,
    previousRun: bool)

  datatype ReportOutcome = NoIssues | Issues | Warnings | Errored

  // ---------------------------------------------------------------------
  // Outcome and summary partition

  /** `Report::outcome`: errors take priority over warnings, warnings over
      issues. (`Errored` is Rust's `ReportOutcome::Errors`.) */
  function Outcome(r: Report): (o: ReportOutcome)
    ensures o == Errored <==> |r.errors| > 0
    ensures o == Warnings <==> |r.errors| == 0 && |r.warnings| > 0
    ensures o == Issues <==> |r.errors| == 0 && |r.warnings| == 0 && |r.issues| > 0
    ensures o == NoIssues <==> |r.errors| == 0 && |r.warnings| == 0 && |r.issues| == 0
  {
    if |r.errors| > 0 then Errored
    else if |r.warnings| > 0 then Warnings
    else if |r.issues| > 0 then Issues
    else NoIssues
  }

  /** One section of `generate_summary`: the reports with outcome `o`, in
      input order. */
  function Section(reports: seq<Report>, o: ReportOutcome): (s: seq<Report>)
    ensures |s| <= |reports|
    ensures forall k :: 0 <= k < |s| ==> Outcome(s[k]) == o
  {
    if |reports| == 0 then []
    else
      assert reports == [reports[0]] + reports[1..];
      (if Outcome(reports[0]) == o then [reports[0]] else []) + Section(reports[1..], o)
  }

  lemma SectionCons(reports: seq<Report>, o: ReportOutcome)
    requires |reports| > 0
    ensures Outcome(reports[0]) == o ==> Section(reports, o) == [reports[0]] + Section(reports[1..], o)
    ensures Outcome(reports[0]) != o ==> Section(reports, o) == Section(reports[1..], o)
  {
  }

  /** A report is in a section exactly when it is one of the reports and
      has that section's outcome, so each report is listed under its own
      outcome and under no other. */
  lemma {:induction false} SectionMembers(reports: seq<Report>, o: ReportOutcome, x: Report)
    ensures x in Section(reports, o) <==> x in reports && Outcome(x) == o
  {
    if |reports| > 0 {
      SectionMembers(reports[1..], o, x);
      assert reports == [reports[0]] + reports[1..];
    }
  }

  /** The section counts printed in the summary add up to the number of
      reports. */
  lemma {:induction false} SectionCounts(reports: seq<Report>)
    ensures |Section(reports, Issues)| + |Section(reports, Errored)|
          + |Section(reports, Warnings)| + |Section(reports, NoIssues)| == |reports|
  {
    if |reports| > 0 {
      SectionCounts(reports[1..]);
      SectionCons(reports, Issues);
      SectionCons(reports, Errored);
      SectionCons(reports, Warnings);
      SectionCons(reports, NoIssues);
    }
  }

  /** `{:?}` of a stage, used in the errors section. */
  function StageName(s: PipelineStage): string {
    match s
    case Setup => "Setup"
    case ResolvingDependencies => "ResolvingDependencies"
    case InstallingDependencies => "InstallingDependencies"
    case PyreSetup => "PyreSetup"
    case Analysis => "Analysis"
    case Processing => "Processing"
    case Cleanup => "Cleanup"
  }

  const CachedMark: string := " (cached)"

  /** The stage an error entry names; `Unknown` when the report records
      none. */
  function StageLabel(s: Option<PipelineStage>): string {
    match s
    case Some(st) => StageName(st)
    case None => "Unknown"
  }

  /** Different stages are named differently, so an error entry identifies
      its stage. */
  lemma StageLabelInjective(x: Option<PipelineStage>, y: Option<PipelineStage>)
    ensures StageLabel(x) == StageLabel(y) ==> x == y
  {
  }

  /** The count an entry leads with: its errors, its warnings or its
      issues, by outcome. */
  function LeadCount(r: Report): nat {
    match Outcome(r)
    case Errored => |r.errors|
    case Warnings => |r.warnings|
    case _ => |r.issues|
  }

  /** ` ({n} issue(s))`. */
  function IssuesDetail(n: string): (d: string)
    ensures StartsWith(d, " (" + n + " ") && EndsWith(d, " issue(s))")
  {
    var d := " (" + n + " issue(s))";
    assert d == " (" + n + " " + "issue(s))";
    StartsWithConcat(" (" + n + " ", "issue(s))");
    EndsWithConcat(" (" + n, " issue(s))");
    d
  }

  /** ` ({n} error(s), {stage})`. */
  function ErrorsDetail(n: string, stage: string): (d: string)
    ensures StartsWith(d, " (" + n + " ")
    ensures d == " (" + n + " error(s), " + stage + ")"
  {
    var d := " (" + n + " error(s), " + stage + ")";
    assert d == " (" + n + " " + ("error(s), " + stage + ")");
    StartsWithConcat(" (" + n + " ", "error(s), " + stage + ")");
    d
  }

  /** ` ({n} warning(s), {m} issue(s))`. */
  function WarningsDetail(n: string, m: string): (d: string)
    ensures StartsWith(d, " (" + n + " ")
    ensures StartsWith(d, " (" + n + " warning(s), ")
    ensures EndsWith(d, ", " + m + " issue(s))")
  {
    var d := " (" + n + " warning(s), " + m + " issue(s))";
    assert d == " (" + n + " " + ("warning(s), " + m + " issue(s))");
    StartsWithConcat(" (" + n + " ", "warning(s), " + m + " issue(s))");
    assert d == " (" + n + " warning(s), " + (m + " issue(s))");
    StartsWithConcat(" (" + n + " warning(s), ", m + " issue(s))");
    assert d == " (" + n + " warning(s)" + (", " + m + " issue(s))");
    EndsWithConcat(" (" + n + " warning(s)", ", " + m + " issue(s))");
    d
  }

  /** The counts after a report's id, in parentheses; nothing when there
      is nothing to say. The detail opens with the count of what put the
      report in its section; an error entry closes with the failing stage
      and a warnings entry with the number of issues. */
  function OutcomeDetail(r: Report): (d: string)
    ensures Outcome(r) == NoIssues <==> d == ""
    ensures d != "" ==> |d| >= 2 && d[|d| - 1] == ')' && d[|d| - 2] != 'd'
    ensures d != "" ==> StartsWith(d, " (" + NatToDecimal(LeadCount(r)) + " ")
    ensures Outcome(r) == Issues ==> EndsWith(d, " issue(s))")
    ensures Outcome(r) == Errored ==>
      d == " (" + NatToDecimal(|r.errors|) + " error(s), " + StageLabel(r.errorStage) + ")"
    ensures Outcome(r) == Warnings ==>
      StartsWith(d, " (" + NatToDecimal(|r.warnings|) + " warning(s), ")
      && EndsWith(d, ", " + NatToDecimal(|r.issues|) + " issue(s))")
  {
    var n := NatToDecimal(LeadCount(r));
    match Outcome(r)
    case Issues => IssuesDetail(n)
    case Errored => ErrorsDetail(n, StageLabel(r.errorStage))
    case Warnings => WarningsDetail(n, NatToDecimal(|r.issues|))
    case NoIssues => ""
  }

  /** Reads back the count that opens a detail: the digits between ` (`
      and the next space. */
  function DetailCount(d: string): (n: Option<nat>)
  {
    if StartsWith(d, " (") then
      match IndexOf(d[2..], ' ')
      case None => None
      case Some(k) => ParseNat(d[2..][..k])
    else None
  }

  lemma IndexOfAfterDigits(digits: string, rest: string)
    requires AllDigits(digits)
    ensures IndexOf(digits + " " + rest, ' ') == Some(|digits|)
  {
    var s := digits + " " + rest;
    assert s[|digits|] == ' ';
  }

  /** A detail opening with a decimal count reads back to that count. */
  lemma DetailCountOf(n: nat, rest: string)
    ensures DetailCount(" (" + NatToDecimal(n) + " " + rest) == Some(n)
  {
    var digits := NatToDecimal(n);
    var d := " (" + digits + " " + rest;
    StartsWithConcat(" (", digits + " " + rest);
    assert d == " (" + (digits + " " + rest);
    assert d[2..] == digits + " " + rest;
    IndexOfAfterDigits(digits, rest);
    assert d[2..][..|digits|] == digits;
    ParseNatToDecimal(n);
  }

  /** The count an entry's detail opens with reads back to the report's
      count of errors, warnings or issues, as its section requires. */
  lemma DetailCountReadsBack(r: Report)
    ensures DetailCount(OutcomeDetail(r)) == if Outcome(r) == NoIssues then None else Some(LeadCount(r))
  {
    var d := OutcomeDetail(r);
    if d != "" {
      var p := " (" + NatToDecimal(LeadCount(r)) + " ";
      assert d == p + d[|p|..];
      DetailCountOf(LeadCount(r), d[|p|..]);
    }
  }

  /** Two error entries with the same detail report the same number of
      errors and the same failing stage. */
  lemma ErrorDetailNamesStage(r1: Report, r2: Report)
    requires Outcome(r1) == Errored && Outcome(r2) == Errored
    requires OutcomeDetail(r1) == OutcomeDetail(r2)
    ensures |r1.errors| == |r2.errors| && r1.errorStage == r2.errorStage
  {
    DetailCountReadsBack(r1);
    DetailCountReadsBack(r2);
    var p := " (" + NatToDecimal(|r1.errors|) + " error(s), ";
    var l1, l2 := StageLabel(r1.errorStage), StageLabel(r2.errorStage);
    assert p + l1 + ")" == p + l2 + ")";
    assert (p + l1 + ")")[|p|..|p| + |l1|] == l1;
    assert (p + l2 + ")")[|p|..|p| + |l2|] == l2;
    StageLabelInjective(r1.errorStage, r2.errorStage);
  }

  /** A report's entry line in its summary section. */
  function EntryLine(r: Report): (line: string)
    ensures line == "- " + r.repositoryConfig.id + OutcomeDetail(r) + (if r.previousRun then CachedMark else "")
    ensures StartsWith(line, "- " + r.repositoryConfig.id)
    ensures r.previousRun ==> EndsWith(line, CachedMark)
    ensures Outcome(r) != NoIssues ==> (EndsWith(line, CachedMark) <==> r.previousRun)
  {
    var head := "- " + r.repositoryConfig.id;
    var body := OutcomeDetail(r);
    var tail := if r.previousRun then CachedMark else "";
    var line := head + body + tail;
    assert StartsWith(line, head) by {
      assert line == head + (body + tail);
      StartsWithConcat(head, body + tail);
    }
    assert r.previousRun ==> EndsWith(line, CachedMark) by {
      if r.previousRun {
        EndsWithConcat(head + body, CachedMark);
      }
    }
    assert body != "" && !r.previousRun ==> !EndsWith(line, CachedMark) by {
      if body != "" && !r.previousRun {
        assert line == head + body;
        assert line[|line| - 2] == body[|body| - 2];
      }
    }
    line
  }

  // ---------------------------------------------------------------------
  // Names

  /** The cached tarball's file name for a GitHub source: the full name with
      `/` turned into `.`, then `%`, then the revision with `/` turned into
      `%`, then `.tar.gz`. */
  function TarballName(src: GitHubSrc): (name: string)
    ensures '/' !in name
    ensures EndsWith(name, ".tar.gz")
  {
    var name := ReplaceChar(src.fullName, '/', '.') + "%" + ReplaceChar(src.rev, '/', '%') + ".tar.gz";
    EndsWithConcat(ReplaceChar(src.fullName, '/', '.') + "%" + ReplaceChar(src.rev, '/', '%'), ".tar.gz");
    name
  }

  /** The analysis directory of one run: `{id}.{millis}`. */
  function AnalysisDirName(id: string, millis: nat): string {
    id + "." + NatToDecimal(millis)
  }

  /** Splitting an analysis directory name at its last `.` recovers the
      repository id and the timestamp, whatever dots the id contains. */
  lemma AnalysisDirNameSplit(id: string, millis: nat)
    ensures RSplitOnce(AnalysisDirName(id, millis), '.') == Some((id, NatToDecimal(millis)))
  {
    var digits := NatToDecimal(millis);
    assert '.' !in digits by {
      forall k | 0 <= k < |digits| ensures digits[k] != '.' {
        assert IsDigit(digits[k]);
      }
    }
    assert AnalysisDirName(id, millis) == id + ['.'] + digits;
    RSplitOnceJoin(id, '.', digits);
  }

  // ---------------------------------------------------------------------
  // Archive dispatch

  datatype ArchiveKind = TarGz | Zip | TarBz2

  /** What `Path::file_name` gives for the archive path. */
  datatype FileName = NoFileName | NonUtf8 | Name(s: string)

  predicate IsTarGzName(s: string) { EndsWith(s, ".tar.gz") || EndsWith(s, ".tgz") }
  predicate IsZipName(s: string) { EndsWith(s, ".zip") || EndsWith(s, ".whl") }
  predicate IsTarBz2Name(s: string) { EndsWith(s, ".tar.bz2") }

  /** `extract_archive`'s choice of decoder, tested in this order. */
  function ArchiveKindOf(name: FileName): (r: Result<ArchiveKind, string>)
    ensures name.NoFileName? ==> r == Err("archive_path does not have a file name")
    ensures r == Ok(TarGz) <==> name.Name? && IsTarGzName(name.s)
    ensures r == Ok(Zip) <==> name.Name? && !IsTarGzName(name.s) && IsZipName(name.s)
    ensures r == Ok(TarBz2) <==> name.Name? && !IsTarGzName(name.s) && !IsZipName(name.s) && IsTarBz2Name(name.s)
    ensures name.NonUtf8? ==> r.Err?
  {
    match name
    case NoFileName => Err("archive_path does not have a file name")
    case NonUtf8 => Err("unable to extract: failed to determine archive type")
    case Name(s) =>
      if IsTarGzName(s) then Ok(TarGz)
      else if IsZipName(s) then Ok(Zip)
      else if IsTarBz2Name(s) then Ok(TarBz2)
      else Err("unable to extract: failed to determine archive type")
  }

  /** A GitHub tarball is always unpacked as a gzip tar. */
  lemma GitHubTarballIsTarGz(src: GitHubSrc)
    ensures ArchiveKindOf(Name(TarballName(src))) == Ok(TarGz)
  {
  }

  // ---------------------------------------------------------------------
  // Analysing one repository

  /** What the analysis stages hand back (Rust's `AnalysisResults`). */
  datatype AnalysisResults = AnalysisResults(
    warnings: seq<string>,
    rawIssueCount: nat,
    issues: seq<ProcessedIssue>,
    resolvedDependencies: seq<PipPackage>)

  /** The outcomes of the setup steps: creating the source directory,
      downloading (or reusing) the archive, the file name of a PyPI archive,
      and unpacking it.

      `pypiFileName` is an input, not derived from the source record: the
      archive is saved at `dest_dir.join(&src.filename)` and Rust's
      `Path::file_name` of that path is what `extract_archive` inspects.
      For a plain file name it is `Name(src.filename)`; path joining and
      normalisation are not modelled, so the value is supplied here. */
  datatype SetupSteps = SetupSteps(
    createDir: Result<(), string>,
    download: Result<(), string>,
    pypiFileName: FileName,
    unpack: Result<(), string>)

  function ArchiveName(src: RepositorySrc, setup: SetupSteps): FileName {
    match src
    case GitHub(gh) => Name(TarballName(gh))
    case PyPI(_) => setup.pypiFileName
  }

  /** Every setup step succeeds and the archive type is recognised. */
  predicate SetupSucceeds(repo: RepositoryConfig, setup: SetupSteps) {
    setup.createDir.Ok? && setup.download.Ok?
    && ArchiveKindOf(ArchiveName(repo.src, setup)).Ok? && setup.unpack.Ok?
  }

  /** `run_repo`: setup failures are tagged `Setup`; the analysis brings its
      own stage; a run that finds no issues removes the sources, and a
      failure there is tagged `Cleanup`. */
  function RunRepo(repo: RepositoryConfig, setup: SetupSteps, analysis: Result<AnalysisResults, PipelineError>,
                   cleanup: Result<(), string>): (r: Result<Report, PipelineError>)
    ensures !SetupSucceeds(repo, setup) ==> r.Err? && r.error.stage == Setup
    ensures SetupSucceeds(repo, setup) && analysis.Err? ==> r == Err(analysis.error)
    ensures r.Ok? <==>
      SetupSucceeds(repo, setup) && analysis.Ok? && (|analysis.value.issues| > 0 || cleanup.Ok?)
    ensures r.Err? && SetupSucceeds(repo, setup) && analysis.Ok? ==> r.error.stage == Cleanup
    ensures r.Ok? ==>
      && r.value.repositoryConfig == repo
      && r.value.errorStage.None?
      && r.value.errors == []
      && r.value.elapsedSeconds.None?
      && !r.value.previousRun
      && r.value.warnings == analysis.value.warnings
      && r.value.rawIssueCount == analysis.value.rawIssueCount
      && r.value.issues == analysis.value.issues
      && r.value.resolvedDependencies == analysis.value.resolvedDependencies
  {
    var _ :- WithStage(setup.createDir, Setup);
    var _ :- WithStage(setup.download, Setup);
    var kind :- WithStage(ArchiveKindOf(ArchiveName(repo.src, setup)), Setup);
    var _ :- WithStage(setup.unpack, Setup);
    var results :- analysis;
    var report := Report(repo, results.warnings, None, [], results.rawIssueCount, results.issues,
                         results.resolvedDependencies, None, false);
    if |results.issues| == 0 then
      var _ :- WithStage(cleanup, Cleanup);
      Ok(report)
    else
      Ok(report)
  }

  // ---------------------------------------------------------------------
  // The resume-or-analyse loop

  /** What is found at a repository's report path. */
  datatype StoredReport = Absent | Unreadable | Readable(report: Report)

  /** What happened for one repository: an earlier report was reused, or a
      fresh one was produced (and must be written). */
  datatype Step = Reused(report: Report) | Fresh(report: Report)

  /** `Report::read`: the deserialised fields, with `previous_run` set. */
  function ReadBack(stored: Report): (r: Report)
    ensures r.previousRun
    ensures r.(previousRun := stored.previousRun) == stored
  {
    stored.(previousRun := true)
  }

  /** The report recorded when `run_repo` fails. */
  function ErrorReport(repo: RepositoryConfig, e: PipelineError, elapsed: nat): (r: Report)
    ensures Outcome(r) == Errored
    ensures r.repositoryConfig == repo && r.errorStage == Some(e.stage) && r.errors == [e.error]
    ensures r.rawIssueCount == 0 && r.issues == [] && r.resolvedDependencies == [] && r.warnings == []
    ensures r.elapsedSeconds == Some(elapsed) && !r.previousRun
  {
    Report(repo, [], Some(e.stage), [e.error], 0, [], [], Some(elapsed), false)
  }

  /** One iteration of `Pipeline::run` for a repository whose report path
      could be probed: a readable report is reused; otherwise (absent or
      unreadable) the repository is analysed and the elapsed time recorded. */
  function RunStep(repo: RepositoryConfig, stored: StoredReport, analysed: Result<Report, PipelineError>,
                   elapsed: nat): (step: Step)
    ensures stored.Readable? <==> step.Reused?
    ensures stored.Readable? ==> step.report == ReadBack(stored.report)
    ensures !stored.Readable? && analysed.Ok? ==>
      step.report == analysed.value.(elapsedSeconds := Some(elapsed))
    ensures !stored.Readable? && analysed.Err? ==>
      step.report == ErrorReport(repo, analysed.error, elapsed)
  {
    match stored
    case Readable(report) => Reused(ReadBack(report))
    case _ =>
      match analysed
      case Ok(report) => Fresh(report.(elapsedSeconds := Some(elapsed)))
      case Err(e) => Fresh(ErrorReport(repo, e, elapsed))
  }

  /** A fresh report for a repository that `run_repo` analysed successfully
      is never an error report, and a reused one is always marked cached. */
  lemma FreshSuccessNotErrored(repo: RepositoryConfig, setup: SetupSteps, analysis: Result<AnalysisResults, PipelineError>,
                               cleanup: Result<(), string>, stored: StoredReport, elapsed: nat)
    requires !stored.Readable?
    requires RunRepo(repo, setup, analysis, cleanup).Ok?
    ensures var step := RunStep(repo, stored, RunRepo(repo, setup, analysis, cleanup), elapsed);
      Outcome(step.report) != Errored && step.report.errorStage.None? && !step.report.previousRun
      && step.report.elapsedSeconds == Some(elapsed)
  {
  }

  /** The repository's run can proceed past its report: the probe worked,
      and a fresh report was written. */
  predicate Completes(probeOk: bool, stored: StoredReport, writeOk: bool) {
    probeOk && (stored.Readable? || writeOk)
  }

  /** `Pipeline::run`: for each repository in order, probe its report path
      (a failed probe aborts), reuse or analyse, and write each fresh
      report (a failed write aborts). Returns the collected reports and the
      positions whose report was written. */
  method Run(repos: seq<RepositoryConfig>, probeOk: seq<bool>, stored: seq<StoredReport>,
             analysed: seq<Result<Report, PipelineError>>, elapsed: seq<nat>, writeOk: seq<bool>)
    returns (r: Result<seq<Report>, string>, written: seq<nat>)
    requires |probeOk| == |repos| && |stored| == |repos| && |analysed| == |repos|
    requires |elapsed| == |repos| && |writeOk| == |repos|
    ensures r.Ok? <==> forall k :: 0 <= k < |repos| ==> Completes(probeOk[k], stored[k], writeOk[k])
    ensures r.Ok? ==> |r.value| == |repos|
    ensures r.Ok? ==> forall k :: 0 <= k < |repos| ==>
      r.value[k] == RunStep(repos[k], stored[k], analysed[k], elapsed[k]).report
    ensures forall k :: k in written ==> k < |repos| && probeOk[k] && !stored[k].Readable? && writeOk[k]
    ensures r.Ok? ==> forall k :: 0 <= k < |repos| && !stored[k].Readable? ==> k in written
    ensures r.Err? ==>
      exists f :: 0 <= f < |repos| && !Completes(probeOk[f], stored[f], writeOk[f])
        && (forall j :: 0 <= j < f ==> Completes(probeOk[j], stored[j], writeOk[j]))
        && (forall j :: j in written ==> j < f)
  {
    var reports: seq<Report> := [];
    written := [];
    for i := 0 to |repos|
      invariant |reports| == i
      invariant forall k :: 0 <= k < i ==> Completes(probeOk[k], stored[k], writeOk[k])
      invariant forall k :: 0 <= k < i ==> reports[k] == RunStep(repos[k], stored[k], analysed[k], elapsed[k]).report
      invariant forall k :: k in written ==> k < i && probeOk[k] && !stored[k].Readable? && writeOk[k]
      invariant forall k :: 0 <= k < i && !stored[k].Readable? ==> k in written
    {
      if !probeOk[i] {
        return Err("failed to probe the report path"), written;
      }
      var step := RunStep(repos[i], stored[i], analysed[i], elapsed[i]);
      if step.Fresh? {
        if !writeOk[i] {
          return Err("failed to write the report"), written;
        }
        written := written + [i];
      }
      reports := reports + [step.report];
    }
    r := Ok(reports);
  }
}
