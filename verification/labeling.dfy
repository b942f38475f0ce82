/** The interactive labelling pass (tool/src/e2e/labeling.rs): finding a
    report's analysis directory, applying the labeller's labels to the
    unlabelled issues, and deciding which reports to rewrite. The prompts
    themselves are an input: for each issue, the label the labeller picked,
    or `None` when the prompt (or showing the issue's source) failed. */
module Labeling {
  import opened Wrappers
  import opened Strings
  import opened Search
  import opened AnalyseResults

  // ---------------------------------------------------------------------
  // Finding the analysis directory

  /** The text before a directory name's last dot, if it has a dot. */
  function DirKey(name: string): Option<string> {
    match RSplitOnce(name, '.')
    case None => None
    case Some((dep, _)) => Some(dep)
  }

  /** The comparator handed to `binary_search_by`: a directory sorts before
      the target when it has no dot or when the text before its last dot is
      at most `id`; it never answers `Equal`. */
  function DirCmp(name: string, id: string): (r: Ordering)
    ensures r != Equal
    ensures r == Less <==> DirKey(name).None? || Le(DirKey(name).value, id)
  {
    match DirKey(name)
    case None => Less
    case Some(dep) => Cmp(dep, id).Then(Less)
  }

  predicate SortsBefore(name: string, id: string) {
    DirCmp(name, id) == Less
  }

  function BeforeDir(id: string): string -> bool {
    name => SortsBefore(name, id)
  }

  /** `find_analysis_directory`: the entry just before the partition point,
      kept only when the text before its last dot is exactly `id`. The
      search is specified for a comparator that is monotone along `names`
      (Rust leaves the result unspecified otherwise), so that is required. */
  function FindAnalysisDirectory(names: seq<string>, id: string): (r: Option<nat>)
    requires Partitioned(names, BeforeDir(id))
    ensures r.Some? ==> r.value < |names| && DirKey(names[r.value]) == Some(id)
    ensures r.Some? ==> forall j :: r.value < j < |names| ==> !SortsBefore(names[j], id)
    ensures r.None? ==> forall j :: 0 <= j < |names| && DirKey(names[j]) == Some(id) ==>
                          exists j' :: j < j' < |names| && SortsBefore(names[j'], id)
  {
    var p := PartitionPoint(names, BeforeDir(id), 0, |names|);
    if p > 0 && DirKey(names[p - 1]) == Some(id) then Some(p - 1)
    else
      MissedBehind(names, id, p);
      None
  }

  /** A name whose key is `id` sorts before `id`. */
  lemma KeyedSortsBefore(name: string, id: string)
    requires DirKey(name) == Some(id)
    ensures SortsBefore(name, id)
  {
    assert Cmp(id, id) == Equal;
  }

  /** When the name just before the partition point is not keyed `id`,
      every name keyed `id` lies further before it. */
  lemma MissedBehind(names: seq<string>, id: string, p: nat)
    requires p <= |names|
    requires forall i :: 0 <= i < p ==> BeforeDir(id)(names[i])
    requires forall i :: p <= i < |names| ==> !BeforeDir(id)(names[i])
    requires p == 0 || DirKey(names[p - 1]) != Some(id)
    ensures forall j :: 0 <= j < |names| && DirKey(names[j]) == Some(id) ==>
              exists j' :: j < j' < |names| && SortsBefore(names[j'], id)
  {
    forall j | 0 <= j < |names| && DirKey(names[j]) == Some(id)
      ensures exists j' :: j < j' < |names| && SortsBefore(names[j'], id)
    {
      KeyedSortsBefore(names[j], id);
      assert BeforeDir(id)(names[j]);
      assert p > 0 && j < p - 1;
      assert BeforeDir(id)(names[p - 1]);
    }
  }

  /** A name built as `{key}.{suffix}` with a dot-free suffix has `key` as
      its directory key. */
  lemma DirKeyOf(key: string, suffix: string)
    requires '.' !in suffix
    ensures DirKey(key + "." + suffix) == Some(key)
  {
    RSplitOnceJoin(key, '.', suffix);
    assert key + "." + suffix == key + ['.'] + suffix;
  }

  /** Every name has a dot and the keys before the last dot are in order
      along the names. Sorting the whole names does not give this. */
  ghost predicate KeysSorted(names: seq<string>) {
    && (forall j :: 0 <= j < |names| ==> DirKey(names[j]).Some?)
    && (forall i, j :: 0 <= i < j < |names| ==> Le(DirKey(names[i]).value, DirKey(names[j]).value))
  }

  /** Keys in order make the comparator monotone for every id. */
  lemma KeysSortedPartitioned(names: seq<string>, id: string)
    requires KeysSorted(names)
    ensures Partitioned(names, BeforeDir(id))
  {
    forall i, j | 0 <= i < j < |names| && BeforeDir(id)(names[j])
      ensures BeforeDir(id)(names[i])
    {
      LeTrans(DirKey(names[i]).value, DirKey(names[j]).value, id);
    }
  }

  /** With the keys in order the search is complete: a directory whose key
      is `id` is found, and what is found is the last such directory. */
  lemma LabelingFindsLast(names: seq<string>, id: string, k: nat)
    requires KeysSorted(names)
    requires k < |names| && DirKey(names[k]) == Some(id)
    ensures Partitioned(names, BeforeDir(id))
    ensures FindAnalysisDirectory(names, id).Some?
    ensures k <= FindAnalysisDirectory(names, id).value
  {
    KeysSortedPartitioned(names, id);
    var p := PartitionPoint(names, BeforeDir(id), 0, |names|);
    KeyedSortsBefore(names[k], id);
    assert BeforeDir(id)(names[k]);
    var q := p - 1;
    assert BeforeDir(id)(names[q]);
    if k < q {
      KeysSortedAt(names, k, q);
    }
    KeyedAtPoint(names, id, k, q);
  }

  /** Two names in order have their keys in order. */
  lemma KeysSortedAt(names: seq<string>, i: nat, j: nat)
    requires KeysSorted(names) && i < j < |names|
    ensures DirKey(names[i]).Some? && DirKey(names[j]).Some?
    ensures Le(DirKey(names[i]).value, DirKey(names[j]).value)
  {
  }

  /** A name at or after one keyed `id`, whose key is at least `id` and
      which sorts before `id`, is keyed `id` too. */
  lemma KeyedAtPoint(names: seq<string>, id: string, k: nat, q: nat)
    requires k <= q < |names| && DirKey(names[k]) == Some(id)
    requires k < q ==> DirKey(names[q]).Some? && Le(id, DirKey(names[q]).value)
    requires SortsBefore(names[q], id)
    ensures DirKey(names[q]) == Some(id)
  {
    if k < q && DirKey(names[q]) != Some(id) {
      var kq := DirKey(names[q]).value;
      assert Lt(kq, id);
      LtNotLe(kq, id);
      assert false;
    }
  }

  /** Another repository's directory key, with its dot, is a proper prefix
      of `id` with its dot (as `pypi.zope.` is of `pypi.zope.interface.`):
      the one situation in which no search keyed on the text through the
      last dot can be relied on. */
  predicate KeyClash(name: string, id: string) {
    DirKey(name).Some? && DirKey(name).value != id && StartsWith(id + ".", DirKey(name).value + ".")
  }

  /** A `{key}.{suffix}` name sorts before `id` exactly when its key is at
      most `id`. */
  lemma SortsBeforeKeyed(key: string, suffix: string, id: string)
    requires '.' !in suffix
    ensures DirKey(key + "." + suffix) == Some(key)
    ensures SortsBefore(key + "." + suffix, id) <==> Le(key, id)
  {
    DirKeyOf(key, suffix);
  }

  /** Several runs of one repository: the latest (largest) is found. */
  lemma FindsLatestRun()
    ensures Partitioned(["proj.100", "proj.200", "projX.50"], BeforeDir("proj"))
    ensures FindAnalysisDirectory(["proj.100", "proj.200", "projX.50"], "proj") == Some(1)
  {
    var names := ["proj.100", "proj.200", "projX.50"];
    assert names[0] == "proj" + "." + "100";
    assert names[1] == "proj" + "." + "200";
    assert names[2] == "projX" + "." + "50";
    SortsBeforeKeyed("proj", "100", "proj");
    SortsBeforeKeyed("proj", "200", "proj");
    SortsBeforeKeyed("projX", "50", "proj");
    assert Cmp("proj", "proj") == Equal;
    LongerKeyAfter();
    FoundSecondOfThree(names[0], names[1], names[2], "proj");
  }

  /** Two names before `id` and one after: the search looks at the
      second. */
  lemma FoundSecondOfThree(a: string, b: string, c: string, id: string)
    requires SortsBefore(a, id) && SortsBefore(b, id) && !SortsBefore(c, id)
    ensures Partitioned([a, b, c], BeforeDir(id))
    ensures FindAnalysisDirectory([a, b, c], id) == if DirKey(b) == Some(id) then Some(1) else None
  {
    FoundAt([a, b, c], id, 2);
  }

  /** When the names sorting before `id` are exactly the first `p`, the
      search looks at name `p - 1` only. */
  lemma FoundAt(names: seq<string>, id: string, p: nat)
    requires 0 < p <= |names|
    requires forall i :: 0 <= i < p ==> SortsBefore(names[i], id)
    requires forall i :: p <= i < |names| ==> !SortsBefore(names[i], id)
    ensures Partitioned(names, BeforeDir(id))
    ensures FindAnalysisDirectory(names, id) == if DirKey(names[p - 1]) == Some(id) then Some(p - 1) else None
  {
    PartitionPointAt(names, BeforeDir(id), p);
  }

  lemma LongerKeyAfter()
    ensures !Le("projX", "proj")
  {
    assert Cmp("projX", "proj") == Greater;
  }

  /** The key before the last dot is not monotone along sorted names:
      `proj.2` sorts after `proj-a.1` (`.` comes after `-`) although `proj`
      sorts before `proj-a`, so for the id `proj` the comparator answers
      `Greater` then `Less`. */
  lemma LabelingKeyNotMonotone()
    ensures Lt("proj-a.1", "proj.2")
    ensures !Partitioned(["proj-a.1", "proj.2"], BeforeDir("proj"))
  {
    var names := ["proj-a.1", "proj.2"];
    assert names[0] == "proj-a" + "." + "1";
    assert names[1] == "proj" + "." + "2";
    SortsBeforeKeyed("proj-a", "1", "proj");
    SortsBeforeKeyed("proj", "2", "proj");
    assert Cmp("proj-a", "proj") == Greater;
    assert Cmp("proj", "proj") == Equal;
    assert !BeforeDir("proj")(names[0]) && BeforeDir("proj")(names[1]);
  }

  /** For the id `proj-a` the search lands after `proj.2` and misses the
      directory `proj-a.1`, though the names are sorted, every name has a
      dot, the comparator is monotone and no key clashes with the id. */
  lemma LabelingMissesPrefixedId()
    ensures DirKey("proj-a.1") == Some("proj-a") && DirKey("proj.2") == Some("proj")
    ensures !KeyClash("proj-a.1", "proj-a") && !KeyClash("proj.2", "proj-a")
    ensures Partitioned(["proj-a.1", "proj.2"], BeforeDir("proj-a"))
    ensures FindAnalysisDirectory(["proj-a.1", "proj.2"], "proj-a") == None
  {
    var names := ["proj-a.1", "proj.2"];
    assert names[0] == "proj-a" + "." + "1";
    assert names[1] == "proj" + "." + "2";
    SortsBeforeKeyed("proj-a", "1", "proj-a");
    SortsBeforeKeyed("proj", "2", "proj-a");
    assert Cmp("proj-a", "proj-a") == Equal;
    assert Cmp("proj", "proj-a") == Less;
    PartitionPointAt(names, BeforeDir("proj-a"), 2);
    ProperPrefixNotDotted();
  }

  /** `proj.` is not a prefix of `proj-a.`. */
  lemma ProperPrefixNotDotted()
    ensures !StartsWith("proj-a" + ".", "proj" + ".")
  {
    var idDot := "proj-a" + ".";
    assert idDot[..5][4] == '-' && ("proj" + ".")[4] == '.';
  }

  // ---------------------------------------------------------------------
  // Labelling the issues of one report

  /** The issue is prompted (it is unlabelled) and the prompt succeeded. */
  predicate Prompted(issue: ProcessedIssue, prompt: Option<IssueLabel>) {
    issue.issueLabel.Unlabeled? && prompt.Some?
  }

  /** Reference definition: each unlabelled issue whose prompt succeeded
      takes the chosen label; every other issue is left as it was. */
  function Relabel(issues: seq<ProcessedIssue>, prompts: seq<Option<IssueLabel>>): (r: seq<ProcessedIssue>)
    requires |prompts| == |issues|
  {
    seq(|issues|, k requires 0 <= k < |issues| =>
      if Prompted(issues[k], prompts[k]) then issues[k].(issueLabel := prompts[k].value) else issues[k])
  }

  /** Only labels change, only of unlabelled issues, and only to what the
      labeller chose. */
  lemma RelabelOnlyTouchesUnlabeled(issues: seq<ProcessedIssue>, prompts: seq<Option<IssueLabel>>, k: nat)
    requires |prompts| == |issues| && k < |issues|
    ensures var r := Relabel(issues, prompts);
      && |r| == |issues|
      && r[k].location == issues[k].location && r[k].trace == issues[k].trace
      && r[k].getattrCount == issues[k].getattrCount
      && (!issues[k].issueLabel.Unlabeled? ==> r[k] == issues[k])
      && (prompts[k].None? ==> r[k] == issues[k])
      && (Prompted(issues[k], prompts[k]) ==> r[k].issueLabel == prompts[k].value)
  {
  }

  /** A second pass can only touch what the first left unlabelled: an issue
      the labeller marked keeps that label. */
  lemma LabelsStick(issues: seq<ProcessedIssue>, p1: seq<Option<IssueLabel>>, p2: seq<Option<IssueLabel>>, k: nat)
    requires |p1| == |issues| && |p2| == |issues| && k < |issues|
    requires Prompted(issues[k], p1[k]) && !p1[k].value.Unlabeled?
    ensures Relabel(Relabel(issues, p1), p2)[k] == Relabel(issues, p1)[k]
  {
  }

  /** `prompt_project`: prompt each unlabelled issue in turn; a failed
      prompt is logged and skipped. The report comes back (to be rewritten)
      exactly when some prompt succeeded, even if the labeller picked
      `Unlabeled` again. */
  method PromptProject(issues: seq<ProcessedIssue>, prompts: seq<Option<IssueLabel>>)
    returns (r: Option<seq<ProcessedIssue>>)
    requires |prompts| == |issues|
    ensures r.Some? <==> exists k :: 0 <= k < |issues| && Prompted(issues[k], prompts[k])
    ensures r.Some? ==> r.value == Relabel(issues, prompts)
  {
    var changed := false;
    var current := issues;
    for i := 0 to |issues|
      invariant |current| == |issues|
      invariant forall k :: 0 <= k < i ==>
        current[k] == (if Prompted(issues[k], prompts[k]) then issues[k].(issueLabel := prompts[k].value) else issues[k])
      invariant forall k :: i <= k < |issues| ==> current[k] == issues[k]
      invariant changed <==> exists k :: 0 <= k < i && Prompted(issues[k], prompts[k])
    {
      if current[i].issueLabel.Unlabeled? {
        match prompts[i]
        case Some(chosen) =>
          current := current[i := current[i].(issueLabel := chosen)];
          changed := true;
        case None =>
      }
    }
    if changed {
      r := Some(current);
    } else {
      r := None;
    }
  }

  // ---------------------------------------------------------------------
  // The pass over all reports

  /** One listed report: unreadable, or read with the result of the
      directory lookup, the labeller's answers and whether rewriting it
      works. */
  datatype ReportVisit =
    | Unreadable
    | Visit(issues: seq<ProcessedIssue>, dir: Option<nat>, prompts: seq<Option<IssueLabel>>, writeOk: bool)

  predicate WellFormed(v: ReportVisit) {
    v.Visit? ==> |v.prompts| == |v.issues|
  }

  /** The report is rewritten: it was read, its directory was found, and
      some prompt succeeded. */
  predicate Rewrites(v: ReportVisit)
    requires WellFormed(v)
  {
    v.Visit? && v.dir.Some? && exists k :: 0 <= k < |v.issues| && Prompted(v.issues[k], v.prompts[k])
  }

  /** `prompt_unlabeled`: unreadable reports and reports without an
      analysis directory are skipped; a report is rewritten only when its
      prompts changed it, and a failed write ends the pass. */
  method PromptUnlabeled(visits: seq<ReportVisit>) returns (r: Result<(), string>, written: seq<nat>)
    requires forall k :: 0 <= k < |visits| ==> WellFormed(visits[k])
    ensures r.Ok? <==> forall k :: 0 <= k < |visits| && Rewrites(visits[k]) ==> visits[k].writeOk
    ensures forall k :: k in written ==> k < |visits| && Rewrites(visits[k]) && visits[k].writeOk
    ensures r.Ok? ==> forall k :: 0 <= k < |visits| && Rewrites(visits[k]) ==> k in written
    ensures r.Err? ==>
      exists f :: 0 <= f < |visits| && Rewrites(visits[f]) && !visits[f].writeOk
        && (forall j :: 0 <= j < f && Rewrites(visits[j]) ==> visits[j].writeOk)
        && (forall j :: j in written ==> j < f)
  {
    written := [];
    for i := 0 to |visits|
      invariant forall k :: 0 <= k < i && Rewrites(visits[k]) ==> visits[k].writeOk && k in written
      invariant forall k :: k in written ==> k < i && Rewrites(visits[k]) && visits[k].writeOk
    {
      match visits[i]
      case Unreadable =>
      case Visit(issues, dir, prompts, writeOk) =>
        if dir.Some? {
          var updated := PromptProject(issues, prompts);
          if updated.Some? {
            if !writeOk {
              return Err("failed to write the updated report"), written;
            }
            written := written + [i];
          }
        }
    }
    r := Ok(());
  }
}
