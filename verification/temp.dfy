/** The maintenance pass of tool/src/e2e/temp.rs: re-read each repository's
    analysis results and copy the freshly computed getattr counts into the
    stored report. Its directory search keys on the name through the last
    dot, which is the corrected form of the labelling search. */
module Temp {
  import opened Wrappers
  import opened Strings
  import opened Search
  import opened AnalyseResults
  import opened Labeling

  // ---------------------------------------------------------------------
  // Finding the analysis directory

  /** The text of a directory name up to and including its last dot. */
  function TempKey(name: string): (r: Option<string>)
    ensures r.Some? <==> DirKey(name).Some?
    ensures r.Some? ==> r.value == DirKey(name).value + "." && StartsWith(name, r.value)
  {
    match LastIndexOf(name, '.')
    case None => None
    case Some(i) =>
      assert name[..i + 1] == name[..i] + ".";
      Some(name[..i + 1])
  }

  /** The comparator of temp.rs: the key through the last dot against
      `{id}.`, never `Equal`. */
  function TempCmp(name: string, id: string): (r: Ordering)
    ensures r != Equal
    ensures r == Less <==> TempKey(name).None? || Le(TempKey(name).value, id + ".")
  {
    match TempKey(name)
    case None => Less
    case Some(key) => Cmp(key, id + ".").Then(Less)
  }

  predicate TempSortsBefore(name: string, id: string) {
    TempCmp(name, id) == Less
  }

  function TempBeforeDir(id: string): string -> bool {
    name => TempSortsBefore(name, id)
  }

  /** temp.rs's `find_analysis_directory`: the entry just before the
      partition point, kept when the text before its last dot is `id`. */
  function FindTempDirectory(names: seq<string>, id: string): (r: Option<nat>)
    requires Partitioned(names, TempBeforeDir(id))
    ensures r.Some? ==> r.value < |names| && DirKey(names[r.value]) == Some(id)
    ensures r.Some? ==> forall j :: r.value < j < |names| ==> !TempSortsBefore(names[j], id)
    ensures r.None? ==> forall j :: 0 <= j < |names| && DirKey(names[j]) == Some(id) ==>
                          exists j' :: j < j' < |names| && TempSortsBefore(names[j'], id)
  {
    var p := PartitionPoint(names, TempBeforeDir(id), 0, |names|);
    if p == 0 then
      TempMissedBehind(names, id, p);
      None
    else if DirKey(names[p - 1]) == Some(id) then Some(p - 1)
    else
      TempMissedBehind(names, id, p);
      None
  }

  /** When the name just before the partition point is not keyed `id`,
      every name keyed `id` lies further before it. */
  lemma TempMissedBehind(names: seq<string>, id: string, p: nat)
    requires p <= |names|
    requires forall i :: 0 <= i < p ==> TempBeforeDir(id)(names[i])
    requires forall i :: p <= i < |names| ==> !TempBeforeDir(id)(names[i])
    requires p == 0 || DirKey(names[p - 1]) != Some(id)
    ensures forall j :: 0 <= j < |names| && DirKey(names[j]) == Some(id) ==>
              exists j' :: j < j' < |names| && TempSortsBefore(names[j'], id)
  {
    forall j | 0 <= j < |names| && DirKey(names[j]) == Some(id)
      ensures exists j' :: j < j' < |names| && TempSortsBefore(names[j'], id)
    {
      KeyIdSortsBefore(names[j], id);
      assert p > 0 && j < p - 1;
      assert TempBeforeDir(id)(names[p - 1]);
    }
  }

  /** A name sorting before `id` whose key differs from `id` (and does not
      clash with it) sorts before every name whose key is `id`. */
  lemma BeforeKeySortsBefore(a: string, b: string, id: string)
    requires DirKey(a) == Some(id)
    requires DirKey(b).Some? && DirKey(b) != Some(id) && !KeyClash(b, id)
    requires TempSortsBefore(b, id)
    ensures Lt(b, a)
  {
    var idDot := id + ".";
    var kb := TempKey(b).value;
    assert StartsWith(a, idDot);
    assert kb != idDot;
    assert Lt(kb, idDot);
    LtExtend(kb, idDot, b, a);
  }

  /** The corrected search is complete: over sorted names that all carry a
      dot, with no key clashing with `id`, a directory whose key is `id` is
      always found, and what is found is the last such directory. */
  lemma TempFindsLast(names: seq<string>, id: string, k: nat)
    requires Sorted(names)
    requires Partitioned(names, TempBeforeDir(id))
    requires forall j :: 0 <= j < |names| ==> DirKey(names[j]).Some? && !KeyClash(names[j], id)
    requires k < |names| && DirKey(names[k]) == Some(id)
    ensures FindTempDirectory(names, id).Some?
    ensures k <= FindTempDirectory(names, id).value
  {
    KeyIdSortsBefore(names[k], id);
    KeyCarriesOver(names, id);
    LastBeforeKeyed(names, TempBeforeDir(id), Keyed(id), k);
  }

  function Keyed(id: string): string -> bool {
    name => DirKey(name) == Some(id)
  }

  /** In sorted names without clashing keys, a name keyed `id` is followed
      only by names keyed `id` until the names stop sorting before `id`. */
  lemma KeyCarriesOver(names: seq<string>, id: string)
    requires Sorted(names)
    requires forall j :: 0 <= j < |names| ==> DirKey(names[j]).Some? && !KeyClash(names[j], id)
    ensures forall i, j :: 0 <= i < j < |names| && Keyed(id)(names[i]) && TempBeforeDir(id)(names[j]) ==> Keyed(id)(names[j])
  {
    forall i, j | 0 <= i < j < |names| && Keyed(id)(names[i]) && TempBeforeDir(id)(names[j])
      ensures Keyed(id)(names[j])
    {
      SameKeyAtOrAfter(names, id, i, j);
    }
  }

  /** In sorted names, a name at or after one keyed `id` that still sorts
      before `id`'s bound is keyed `id` too. */
  lemma SameKeyAtOrAfter(names: seq<string>, id: string, k: nat, q: nat)
    requires Sorted(names) && k < q < |names|
    requires DirKey(names[k]) == Some(id)
    requires DirKey(names[q]).Some? && !KeyClash(names[q], id)
    requires TempSortsBefore(names[q], id)
    ensures DirKey(names[q]) == Some(id)
  {
    if DirKey(names[q]) != Some(id) {
      assert Le(names[k], names[q]);
      BeforeKeySortsBefore(names[k], names[q], id);
      LtNotLe(names[q], names[k]);
    }
  }

  /** When `keyed` carries over from any element to every later one that
      is still `before`, the last `before` element is keyed if any
      `before` element is. */
  lemma LastBeforeKeyed<T>(s: seq<T>, before: T -> bool, keyed: T -> bool, k: nat)
    requires Partitioned(s, before) && k < |s| && before(s[k]) && keyed(s[k])
    requires forall i, j :: 0 <= i < j < |s| && keyed(s[i]) && before(s[j]) ==> keyed(s[j])
    ensures k < PartitionPoint(s, before, 0, |s|)
    ensures keyed(s[PartitionPoint(s, before, 0, |s|) - 1])
  {
    var p := PartitionPoint(s, before, 0, |s|);
    if k < p - 1 {
      assert before(s[p - 1]);
    }
  }

  /** A name whose key is `id` sorts before `id`'s own directory bound. */
  lemma KeyIdSortsBefore(name: string, id: string)
    requires DirKey(name) == Some(id)
    ensures TempBeforeDir(id)(name)
  {
    assert TempKey(name) == Some(id + ".");
    assert Cmp(id + ".", id + ".") == Equal;
  }

  /** Through the dot, `proj.` sorts after `proj-a.`. */
  lemma TempKeysOfExample()
    ensures TempSortsBefore("proj-a.1", "proj-a") && !TempSortsBefore("proj.2", "proj-a")
    ensures DirKey("proj-a.1") == Some("proj-a")
  {
    DirKeyOf("proj-a", "1");
    DirKeyOf("proj", "2");
    assert "proj-a.1" == "proj-a" + "." + "1";
    assert "proj.2" == "proj" + "." + "2";
    CmpSharedPrefix("proj", ".", "-a.");
    assert "proj-a" + "." == "proj" + "-a.";
    assert Cmp("proj" + ".", "proj-a" + ".") == Greater;
  }

  /** The names where the labelling search fails meet the hypotheses of
      `TempFindsLast` for the id `proj-a`. */
  lemma TempExampleWellFormed()
    ensures Sorted(["proj-a.1", "proj.2"])
    ensures Partitioned(["proj-a.1", "proj.2"], TempBeforeDir("proj-a"))
  {
    LabelingKeyNotMonotone();
    SortedPair("proj-a.1", "proj.2");
    TempKeysOfExample();
    PartitionedPair("proj-a.1", "proj.2", TempBeforeDir("proj-a"));
  }

  /** On those names this search succeeds. */
  lemma TempFindsPrefixedId()
    ensures Partitioned(["proj-a.1", "proj.2"], TempBeforeDir("proj-a"))
    ensures FindTempDirectory(["proj-a.1", "proj.2"], "proj-a") == Some(0)
  {
    var names := ["proj-a.1", "proj.2"];
    TempExampleWellFormed();
    TempKeysOfExample();
    assert TempBeforeDir("proj-a")(names[0]) && !TempBeforeDir("proj-a")(names[1]);
    var p := PartitionPoint(names, TempBeforeDir("proj-a"), 0, |names|);
    assert p == 1;
  }

  // ---------------------------------------------------------------------
  // Reconciling getattr counts

  /** An issue of the fresh analysis: its trace and its recomputed count. */
  datatype FreshIssue = FreshIssue(trace: seq<TraceEntry>, getattrCount: GetAttrCount)

  /** The positions of the stored issues with trace `t`, in order. */
  function MatchIndices(stored: seq<ProcessedIssue>, t: seq<TraceEntry>): (r: seq<nat>)
    ensures forall x :: x in r ==> x < |stored| && stored[x].trace == t
    ensures forall k :: 0 <= k < |stored| && stored[k].trace == t ==> k in r
  {
    if |stored| == 0 then []
    else
      var rest := MatchIndices(stored[..|stored| - 1], t);
      if stored[|stored| - 1].trace == t then rest + [|stored| - 1] else rest
  }

  /** Only the traces of the stored issues decide the matches. */
  lemma {:induction false} MatchIndicesByTrace(a: seq<ProcessedIssue>, b: seq<ProcessedIssue>, t: seq<TraceEntry>)
    requires |a| == |b|
    requires forall k :: 0 <= k < |a| ==> a[k].trace == b[k].trace
    ensures MatchIndices(a, t) == MatchIndices(b, t)
  {
    if |a| > 0 {
      MatchIndicesByTrace(a[..|a| - 1], b[..|b| - 1], t);
    }
  }

  /** The count the fresh issues leave for trace `t`: the last one with that
      trace wins, and `d` stands when there is none. */
  function LastCountFor(latest: seq<FreshIssue>, t: seq<TraceEntry>, d: GetAttrCount): GetAttrCount {
    if |latest| == 0 then d
    else if latest[|latest| - 1].trace == t then latest[|latest| - 1].getattrCount
    else LastCountFor(latest[..|latest| - 1], t, d)
  }

  /** Reference definition of a stored issue after reconciliation. */
  function Updated(s: ProcessedIssue, latest: seq<FreshIssue>): ProcessedIssue {
    s.(getattrCount := LastCountFor(latest, s.trace, s.getattrCount))
  }

  /** Every fresh issue has exactly one stored counterpart. */
  predicate AllMatched(stored: seq<ProcessedIssue>, latest: seq<FreshIssue>) {
    forall f :: 0 <= f < |latest| ==> |MatchIndices(stored, latest[f].trace)| == 1
  }

  /** Step `f` changes its stored issue: the fresh count differs from the
      count the issue holds after the earlier steps. */
  predicate StepChanges(stored: seq<ProcessedIssue>, latest: seq<FreshIssue>, f: nat)
    requires f < |latest| && |MatchIndices(stored, latest[f].trace)| == 1
  {
    var ms := MatchIndices(stored, latest[f].trace);
    assert ms[0] in ms;
    latest[f].getattrCount != LastCountFor(latest[..f], latest[f].trace, stored[ms[0]].getattrCount)
  }

  /** A step-by-step update of the last count. */
  lemma LastCountForSnoc(latest: seq<FreshIssue>, f: nat, t: seq<TraceEntry>, d: GetAttrCount)
    requires f < |latest|
    ensures LastCountFor(latest[..f + 1], t, d) ==
      (if latest[f].trace == t then latest[f].getattrCount else LastCountFor(latest[..f], t, d))
  {
    assert latest[..f + 1][..f] == latest[..f];
  }

  /** One step of the reconciliation touches only the stored issue it
      matches. */
  lemma StepUpdate(stored: seq<ProcessedIssue>, latest: seq<FreshIssue>, i: nat, m: nat, k: nat)
    requires i < |latest| && k < |stored|
    requires MatchIndices(stored, latest[i].trace) == [m]
    ensures Updated(stored[k], latest[..i + 1]) ==
      if k == m then Updated(stored[k], latest[..i]).(getattrCount := latest[i].getattrCount)
      else Updated(stored[k], latest[..i])
  {
    LastCountForSnoc(latest, i, stored[k].trace, stored[k].getattrCount);
    if stored[k].trace == latest[i].trace {
      assert k in MatchIndices(stored, latest[i].trace);
    }
    assert m in MatchIndices(stored, latest[i].trace);
  }

  /** Whether step `i` changes a count, read off the state before it. */
  lemma StepChangesAt(stored: seq<ProcessedIssue>, latest: seq<FreshIssue>, i: nat, m: nat)
    requires i < |latest|
    requires MatchIndices(stored, latest[i].trace) == [m]
    ensures m < |stored|
    ensures StepChanges(stored, latest, i) <==>
      latest[i].getattrCount != Updated(stored[m], latest[..i]).getattrCount
  {
    assert m in MatchIndices(stored, latest[i].trace);
  }

  /** After step `i` the reconciled issues are those of the first `i + 1`
      fresh issues. */
  lemma StepKeepsUpdated(stored: seq<ProcessedIssue>, latest: seq<FreshIssue>, i: nat, m: nat,
                         current: seq<ProcessedIssue>)
    requires i < |latest| && |current| == |stored|
    requires MatchIndices(stored, latest[i].trace) == [m]
    requires forall k :: 0 <= k < |stored| ==> current[k] == Updated(stored[k], latest[..i])
    ensures m < |current|
    ensures var next := current[m := current[m].(getattrCount := latest[i].getattrCount)];
      forall k :: 0 <= k < |stored| ==> next[k] == Updated(stored[k], latest[..i + 1])
    ensures current[m].getattrCount == latest[i].getattrCount ==>
      forall k :: 0 <= k < |stored| ==> current[k] == Updated(stored[k], latest[..i + 1])
  {
    assert m in MatchIndices(stored, latest[i].trace);
    forall k | 0 <= k < |stored|
      ensures Updated(stored[k], latest[..i + 1]) ==
        if k == m then current[k].(getattrCount := latest[i].getattrCount) else current[k]
    {
      StepUpdate(stored, latest, i, m, k);
    }
  }

  /** Whether one of the first `i` steps changes a count. */
  predicate ChangedUpTo(stored: seq<ProcessedIssue>, latest: seq<FreshIssue>, i: nat)
    requires i <= |latest|
    requires forall g :: 0 <= g < i ==> |MatchIndices(stored, latest[g].trace)| == 1
  {
    i > 0 && (ChangedUpTo(stored, latest, i - 1) || StepChanges(stored, latest, i - 1))
  }

  lemma {:induction false} ChangedUpToSome(stored: seq<ProcessedIssue>, latest: seq<FreshIssue>, i: nat)
    requires i <= |latest|
    requires forall g :: 0 <= g < i ==> |MatchIndices(stored, latest[g].trace)| == 1
    ensures ChangedUpTo(stored, latest, i) <==> exists f :: 0 <= f < i && StepChanges(stored, latest, f)
  {
    if i > 0 {
      ChangedUpToSome(stored, latest, i - 1);
      if !ChangedUpTo(stored, latest, i) {
        forall f | 0 <= f < i
          ensures !StepChanges(stored, latest, f)
        {
          if f < i - 1 {
            assert !(exists f' :: 0 <= f' < i - 1 && StepChanges(stored, latest, f'));
          }
        }
      } else if !StepChanges(stored, latest, i - 1) {
        var f :| 0 <= f < i - 1 && StepChanges(stored, latest, f);
      }
    }
  }

  /** temp.rs's `prompt_project` after the results are read: each fresh
      issue must match exactly one stored issue by trace (otherwise the
      pass fails with the number of matches), whose count it overwrites;
      the flag records whether any step changed a count. */
  method Reconcile(stored: seq<ProcessedIssue>, latest: seq<FreshIssue>)
    returns (r: Result<(seq<ProcessedIssue>, bool), nat>)
    ensures r.Ok? <==> AllMatched(stored, latest)
    ensures r.Err? ==>
      exists f :: 0 <= f < |latest| && (forall g :: 0 <= g < f ==> |MatchIndices(stored, latest[g].trace)| == 1)
        && r.error == |MatchIndices(stored, latest[f].trace)| && r.error != 1
    ensures r.Ok? ==>
      |r.value.0| == |stored| && forall k :: 0 <= k < |stored| ==> r.value.0[k] == Updated(stored[k], latest)
    ensures r.Ok? ==> (r.value.1 <==> exists f :: 0 <= f < |latest| && StepChanges(stored, latest, f))
  {
    var current := stored;
    var changed := false;
    for i := 0 to |latest|
      invariant |current| == |stored|
      invariant forall k :: 0 <= k < |stored| ==> current[k].trace == stored[k].trace
      invariant forall g :: 0 <= g < i ==> |MatchIndices(stored, latest[g].trace)| == 1
      invariant forall k :: 0 <= k < |stored| ==> current[k] == Updated(stored[k], latest[..i])
      invariant changed == ChangedUpTo(stored, latest, i)
    {
      MatchIndicesByTrace(current, stored, latest[i].trace);
      var matches := MatchIndices(current, latest[i].trace);
      if |matches| != 1 {
        return Err(|matches|);
      }
      var m := matches[0];
      assert matches == [m] == MatchIndices(stored, latest[i].trace);
      assert forall g :: 0 <= g < i + 1 ==> |MatchIndices(stored, latest[g].trace)| == 1;
      StepChangesAt(stored, latest, i, m);
      StepKeepsUpdated(stored, latest, i, m, current);
      if current[m].getattrCount != latest[i].getattrCount {
        current := current[m := current[m].(getattrCount := latest[i].getattrCount)];
        changed := true;
      }
    }
    assert latest[..|latest|] == latest;
    ChangedUpToSome(stored, latest, |latest|);
    r := Ok((current, changed));
  }

  /** When no step changes a count, the stored issues come back as they
      were, so the report is not rewritten for nothing. */
  lemma {:induction false} NoStepKeepsCounts(stored: seq<ProcessedIssue>, latest: seq<FreshIssue>, i: nat, k: nat)
    requires AllMatched(stored, latest)
    requires forall f :: 0 <= f < |latest| ==> !StepChanges(stored, latest, f)
    requires i <= |latest| && k < |stored|
    ensures LastCountFor(latest[..i], stored[k].trace, stored[k].getattrCount) == stored[k].getattrCount
  {
    if i > 0 {
      NoStepKeepsCounts(stored, latest, i - 1, k);
      LastCountForSnoc(latest, i - 1, stored[k].trace, stored[k].getattrCount);
      if latest[i - 1].trace == stored[k].trace {
        var ms := MatchIndices(stored, latest[i - 1].trace);
        assert k in ms;
        assert !StepChanges(stored, latest, i - 1);
      }
    }
  }

  /** Unchanged means untouched: a report reconciled without any step
      changing a count equals the stored one. */
  lemma UnchangedMeansUntouched(stored: seq<ProcessedIssue>, latest: seq<FreshIssue>)
    requires AllMatched(stored, latest)
    requires forall f :: 0 <= f < |latest| ==> !StepChanges(stored, latest, f)
    ensures forall k :: 0 <= k < |stored| ==> Updated(stored[k], latest) == stored[k]
  {
    forall k | 0 <= k < |stored|
      ensures Updated(stored[k], latest) == stored[k]
    {
      NoStepKeepsCounts(stored, latest, |latest|, k);
      assert latest[..|latest|] == latest;
    }
  }

  /** Fresh issues with the same trace agree on the count. */
  predicate Consistent(latest: seq<FreshIssue>) {
    forall f, g :: 0 <= f < |latest| && 0 <= g < |latest| && latest[f].trace == latest[g].trace ==>
      latest[f].getattrCount == latest[g].getattrCount
  }

  /** With consistent fresh results, a second pass over a reconciled
      report changes nothing. */
  lemma ReconcileSettles(stored: seq<ProcessedIssue>, latest: seq<FreshIssue>, f: nat)
    requires AllMatched(stored, latest) && Consistent(latest)
    requires f < |latest|
    ensures var once := seq(|stored|, k requires 0 <= k < |stored| => Updated(stored[k], latest));
      |MatchIndices(once, latest[f].trace)| == 1 && !StepChanges(once, latest, f)
  {
    var once := seq(|stored|, k requires 0 <= k < |stored| => Updated(stored[k], latest));
    var t := latest[f].trace;
    MatchIndicesByTrace(once, stored, t);
    var m := MatchIndices(once, t)[0];
    assert m in MatchIndices(once, t);
    assert stored[m].trace == t;
    LastCountFromAny(latest, t, stored[m].getattrCount, f);
    assert once[m].getattrCount == latest[f].getattrCount;
    ConsistentPrefix(latest, f);
    if g :| 0 <= g < f && latest[g].trace == t {
      assert latest[..f][g] == latest[g];
      LastCountFromAny(latest[..f], t, once[m].getattrCount, g);
    } else {
      LastCountNone(latest[..f], t, once[m].getattrCount);
    }
  }

  lemma ConsistentPrefix(latest: seq<FreshIssue>, n: nat)
    requires Consistent(latest) && n <= |latest|
    ensures Consistent(latest[..n])
  {
    var init := latest[..n];
    forall a, b | 0 <= a < |init| && 0 <= b < |init| && init[a].trace == init[b].trace
      ensures init[a].getattrCount == init[b].getattrCount
    {
      assert init[a] == latest[a] && init[b] == latest[b];
    }
  }

  /** Without a fresh issue for `t`, the stored count stands. */
  lemma {:induction false} LastCountNone(latest: seq<FreshIssue>, t: seq<TraceEntry>, d: GetAttrCount)
    requires forall g :: 0 <= g < |latest| ==> latest[g].trace != t
    ensures LastCountFor(latest, t, d) == d
  {
    if |latest| > 0 {
      LastCountNone(latest[..|latest| - 1], t, d);
    }
  }

  /** Any fresh issue with trace `t` fixes the last count for `t` when the
      results are consistent. */
  lemma {:induction false} LastCountFromAny(latest: seq<FreshIssue>, t: seq<TraceEntry>, d: GetAttrCount, f: nat)
    requires Consistent(latest)
    requires f < |latest| && latest[f].trace == t
    ensures LastCountFor(latest, t, d) == latest[f].getattrCount
  {
    var n := |latest| - 1;
    if latest[n].trace != t {
      assert latest[..n][f] == latest[f];
      ConsistentPrefix(latest, n);
      LastCountFromAny(latest[..n], t, d, f);
    }
  }

  // ---------------------------------------------------------------------
  // The pass over all reports

  /** Why the pass stops. */
  datatype TempError = ResultsUnreadable(message: string) | NoUniqueMatch(matches: nat) | WriteFailed

  /** One listed report: unreadable, or read with the result of the
      directory lookup, the result of reading that directory's analysis
      results, and whether rewriting the report works. */
  datatype TempVisit =
    | ReportUnreadable
    | ReportRead(stored: seq<ProcessedIssue>, dir: Option<nat>, results: Result<seq<FreshIssue>, string>, writeOk: bool)

  /** Some step of the reconciliation changes a count. */
  predicate AnyStepChanges(stored: seq<ProcessedIssue>, latest: seq<FreshIssue>)
    requires AllMatched(stored, latest)
  {
    exists f :: 0 <= f < |latest| && StepChanges(stored, latest, f)
  }

  /** The visit does not stop the pass. */
  predicate VisitSucceeds(v: TempVisit) {
    v.ReportUnreadable? || v.dir.None? ||
    (v.results.Ok? && AllMatched(v.stored, v.results.value)
     && (AnyStepChanges(v.stored, v.results.value) ==> v.writeOk))
  }

  /** The visit rewrites its report. */
  predicate VisitRewrites(v: TempVisit) {
    v.ReportRead? && v.dir.Some? && v.results.Ok? && AllMatched(v.stored, v.results.value)
    && AnyStepChanges(v.stored, v.results.value) && v.writeOk
  }

  /** temp.rs's `prompt_unlabeled`: unreadable reports and reports without
      an analysis directory are skipped; unreadable results, a fresh issue
      without exactly one stored match, or a failed write stop the pass at
      the first report where they happen; a report is rewritten only when a
      count changed. */
  method TempPass(visits: seq<TempVisit>) returns (r: Result<(), TempError>, written: seq<nat>)
    ensures r.Ok? <==> forall k :: 0 <= k < |visits| ==> VisitSucceeds(visits[k])
    ensures r.Err? ==>
      exists k :: 0 <= k < |visits| && !VisitSucceeds(visits[k])
        && (forall j :: 0 <= j < k ==> VisitSucceeds(visits[j]))
        && (forall j :: j in written ==> j < k)
        && (visits[k].results.Err? ==> r.error == ResultsUnreadable(visits[k].results.error))
    ensures forall k :: k in written ==> k < |visits| && VisitRewrites(visits[k])
    ensures r.Ok? ==> forall k :: 0 <= k < |visits| && VisitRewrites(visits[k]) ==> k in written
  {
    written := [];
    for i := 0 to |visits|
      invariant forall k :: 0 <= k < i ==> VisitSucceeds(visits[k])
      invariant forall k :: k in written ==> k < i && VisitRewrites(visits[k])
      invariant forall k :: 0 <= k < i && VisitRewrites(visits[k]) ==> k in written
    {
      var outcome := Visit(visits[i]);
      if outcome.Err? {
        return Err(outcome.error), written;
      }
      if outcome.value {
        written := written + [i];
      }
    }
    r := Ok(());
  }

  /** One report of the pass: whether it is rewritten, or why the pass
      stops there. */
  method Visit(v: TempVisit) returns (r: Result<bool, TempError>)
    ensures r.Ok? <==> VisitSucceeds(v)
    ensures r.Ok? ==> (r.value <==> VisitRewrites(v))
    ensures r.Err? && v.results.Err? ==> r.error == ResultsUnreadable(v.results.error)
  {
    match v
    case ReportUnreadable =>
      return Ok(false);
    case ReportRead(stored, dir, results, writeOk) =>
      if dir.None? {
        return Ok(false);
      }
      if results.Err? {
        return Err(ResultsUnreadable(results.error));
      }
      var outcome := Reconcile(stored, results.value);
      if outcome.Err? {
        return Err(NoUniqueMatch(outcome.error));
      }
      if outcome.value.1 && !writeOk {
        return Err(WriteFailed);
      }
      return Ok(outcome.value.1);
  }
}
