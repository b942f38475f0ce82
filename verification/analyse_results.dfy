/** Ingestion of the taint analyser's output stream and the `getattr`
    heuristic (tool/src/analyse/results.rs), together with the issue
    records that reports store across runs. */
module AnalyseResults {
  import opened Wrappers
  import opened Strings
  import opened Errors

  /** The only output-stream version the tool understands. */
  const SupportedVersion: nat := 3

  /** The propagation feature the analyser emits when taint passes through
      another `getattr`. */
  const CustomGetattr: string := "customgetattr"

  // ---------------------------------------------------------------------
  // Analyser records

  /** A propagated feature; only the two tags the heuristic reads are kept. */
  datatype Feature = Feature(alwaysVia: Option<string>, via: Option<string>)

  datatype RootKind = RootKind(kind: string, features: seq<Feature>)

  datatype TaintRoot = TaintRoot(localFeatures: seq<Feature>, kinds: seq<RootKind>)

  datatype TaintTrace = TaintTrace(name: string, roots: seq<TaintRoot>)

  datatype Location = Location(filename: Option<string>, line: nat, start: nat, end: nat)

  datatype TaintIssueData = TaintIssueData(location: Location, traces: seq<TaintTrace>)

  /** One record of the stream: an issue, or anything else (`Other {}`,
      the untagged catch-all that absorbs models). */
  datatype TaintOutput = Issue(data: TaintIssueData) | Other

  /** A line of the stream after JSON decoding, which may fail. */
  datatype StreamRecord = Parsed(output: TaintOutput) | Malformed

  /** The first line of the stream. */
  datatype Header = Header(fileVersion: nat) | MalformedHeader

  datatype IngestError =
    | HeaderUnreadable
    | Tool(tool: ToolError)
    | RecordUnreadable(index: nat)

  // ---------------------------------------------------------------------
  // Ingestion

  /** Reference definition: the issue records of a stream, in order. */
  function IssuesIn(records: seq<StreamRecord>): seq<TaintIssueData>
  {
    if |records| == 0 then []
    else
      (match records[0]
       case Parsed(Issue(d)) => [d]
       case _ => [])
      + IssuesIn(records[1..])
  }

  lemma IssuesInSnoc(records: seq<StreamRecord>, x: StreamRecord)
    ensures IssuesIn(records + [x]) == IssuesIn(records) + IssuesIn([x])
  {
    if |records| > 0 {
      assert (records + [x])[1..] == records[1..] + [x];
      IssuesInSnoc(records[1..], x);
    } else {
      assert records + [x] == [x];
    }
  }

  /** `UnprocessedResults::from_results_dir` after the file is opened: the
      header's version is checked before any record is looked at, then the
      records are decoded in order, issues kept, everything else dropped,
      and the first undecodable record fails the whole call. */
  method FromResultsDir(header: Header, records: seq<StreamRecord>)
    returns (r: Result<seq<TaintIssueData>, IngestError>)
    ensures header.MalformedHeader? ==> r == Err(HeaderUnreadable)
    ensures header.Header? && header.fileVersion != SupportedVersion ==>
      r == Err(Tool(PyreResultVersionMismatch(header.fileVersion, SupportedVersion)))
    ensures r.Ok? <==> header == Header(SupportedVersion) && forall k :: 0 <= k < |records| ==> records[k].Parsed?
    ensures r.Ok? ==> r.value == IssuesIn(records)
    ensures r.Err? && r.error.RecordUnreadable? ==>
      && r.error.index < |records|
      && records[r.error.index].Malformed?
      && forall k :: 0 <= k < r.error.index ==> records[k].Parsed?
  {
    if header.MalformedHeader? {
      return Err(HeaderUnreadable);
    }
    if header.fileVersion != SupportedVersion {
      return Err(Tool(PyreResultVersionMismatch(header.fileVersion, SupportedVersion)));
    }
    var issues: seq<TaintIssueData> := [];
    for i := 0 to |records|
      invariant issues == IssuesIn(records[..i])
      invariant forall k :: 0 <= k < i ==> records[k].Parsed?
    {
      assert records[..i + 1] == records[..i] + [records[i]];
      IssuesInSnoc(records[..i], records[i]);
      match records[i]
      case Malformed =>
        return Err(RecordUnreadable(i));
      case Parsed(Issue(d)) =>
        issues := issues + [d];
      case Parsed(Other) =>
    }
    assert records[..|records|] == records;
    r := Ok(issues);
  }

  // ---------------------------------------------------------------------
  // The getattr heuristic

  /** How many times `getattr` is reached before the sink. `NoForward` is
      Rust's `GetAttrCount::None`: the issue has no forward trace. */
  datatype GetAttrCount = NoForward | One | TwoPlus | Conditional

  /** The features of a trace's roots in scan order: for each root, its
      local features, then the features of each of its kinds. */
  function KindFeatures(kinds: seq<RootKind>): seq<Feature>
  {
    if |kinds| == 0 then [] else kinds[0].features + KindFeatures(kinds[1..])
  }

  function RootFeatures(roots: seq<TaintRoot>): seq<Feature>
  {
    if |roots| == 0 then []
    else roots[0].localFeatures + KindFeatures(roots[0].kinds) + RootFeatures(roots[1..])
  }

  /** The position of the first trace called `forward`, if any. */
  function FindForward(traces: seq<TaintTrace>): (r: Option<nat>)
    ensures r.None? <==> forall k :: 0 <= k < |traces| ==> traces[k].name != "forward"
    ensures r.Some? ==> FirstNamedForward(traces, r.value)
  {
    if |traces| == 0 then None
    else if traces[0].name == "forward" then Some(0)
    else
      match FindForward(traces[1..])
      case None => None
      case Some(k) => Some(k + 1)
  }

  predicate FirstNamedForward(traces: seq<TaintTrace>, k: int) {
    && 0 <= k < |traces|
    && traces[k].name == "forward"
    && forall j :: 0 <= j < k ==> traces[j].name != "forward"
  }

  /** A feature mentions `customgetattr` in either tag. */
  predicate Hit(f: Feature) {
    f.alwaysVia == Some(CustomGetattr) || f.via == Some(CustomGetattr)
  }

  /** `i` is the first feature that mentions `customgetattr`. */
  ghost predicate FirstHit(fs: seq<Feature>, i: int) {
    0 <= i < |fs| && Hit(fs[i]) && forall k :: 0 <= k < i ==> !Hit(fs[k])
  }

  /** The scan of `from_issue_data` over the features: the first feature
      mentioning `customgetattr` decides, `always_via` tested before `via`. */
  function ScanFeatures(fs: seq<Feature>): (r: GetAttrCount)
    ensures r != NoForward
    ensures r == One <==> forall k :: 0 <= k < |fs| ==> !Hit(fs[k])
    ensures r == TwoPlus <==> exists i :: FirstHit(fs, i) && fs[i].alwaysVia == Some(CustomGetattr)
    ensures r == Conditional <==>
      exists i :: FirstHit(fs, i) && fs[i].alwaysVia != Some(CustomGetattr) && fs[i].via == Some(CustomGetattr)
  {
    if |fs| == 0 then One
    else if fs[0].alwaysVia == Some(CustomGetattr) then
      assert FirstHit(fs, 0);
      TwoPlus
    else if fs[0].via == Some(CustomGetattr) then
      assert FirstHit(fs, 0);
      Conditional
    else
      var r := ScanFeatures(fs[1..]);
      assert forall i :: FirstHit(fs[1..], i) <==> FirstHit(fs, i + 1);
      assert forall i :: FirstHit(fs, i) ==> i >= 1 && FirstHit(fs[1..], i - 1);
      r
  }

  /** `GetAttrCount::from_issue_data`. */
  function FromIssueData(issue: TaintIssueData): (r: GetAttrCount)
    ensures r == NoForward <==> forall k :: 0 <= k < |issue.traces| ==> issue.traces[k].name != "forward"
  {
    match FindForward(issue.traces)
    case None => NoForward
    case Some(k) => ScanFeatures(RootFeatures(issue.traces[k].roots))
  }

  /** Only the first `forward` trace is inspected: whatever follows it,
      forward-named or not, does not change the classification. */
  lemma FirstForwardDecides(loc: Location, before: seq<TaintTrace>, forward: TaintTrace, after: seq<TaintTrace>)
    requires forward.name == "forward"
    requires forall k :: 0 <= k < |before| ==> before[k].name != "forward"
    ensures FromIssueData(TaintIssueData(loc, before + [forward] + after)) == ScanFeatures(RootFeatures(forward.roots))
  {
    var traces := before + [forward] + after;
    assert traces[|before|] == forward;
    assert forall j :: 0 <= j < |before| ==> traces[j] == before[j];
  }

  // ---------------------------------------------------------------------
  // Processing and the per-bucket summary

  /** Rust's `ProcessedIssues` of this revision: the raw issue and its class. */
  datatype ClassifiedIssue = ClassifiedIssue(raw: TaintIssueData, getattrCount: GetAttrCount)

  /** `UnprocessedResults::process`: one classified issue per raw issue, in order. */
  function Process(issues: seq<TaintIssueData>): (r: seq<ClassifiedIssue>)
    ensures |r| == |issues|
    ensures forall k :: 0 <= k < |r| ==> r[k].raw == issues[k] && r[k].getattrCount == FromIssueData(issues[k])
  {
    seq(|issues|, k requires 0 <= k < |issues| => ClassifiedIssue(issues[k], FromIssueData(issues[k])))
  }

  /** One `- at {file}, line {line}` entry of the summary. */
  datatype SummaryLine = SummaryLine(filename: string, line: nat)

  datatype Summary = Summary(one: seq<SummaryLine>, twoPlus: seq<SummaryLine>, conditional: seq<SummaryLine>, total: nat)

  function LineOf(issue: ClassifiedIssue): SummaryLine {
    SummaryLine(issue.raw.location.filename.GetOr("<unknown>"), issue.raw.location.line)
  }

  /** The summary lines of the issues in class `c`, in order. */
  function Bucket(issues: seq<ClassifiedIssue>, c: GetAttrCount): seq<SummaryLine>
  {
    if |issues| == 0 then []
    else (if issues[0].getattrCount == c then [LineOf(issues[0])] else []) + Bucket(issues[1..], c)
  }

  /** `ProcessedResults::summarise` before rendering: the three buckets
      and the total. */
  function Summarise(issues: seq<ClassifiedIssue>): (s: Summary)
    ensures s.total == |issues|
  {
    Summary(Bucket(issues, One), Bucket(issues, TwoPlus), Bucket(issues, Conditional), |issues|)
  }

  /** The three buckets together with the unclassified (`NoForward`)
      issues account for the total exactly once each. */
  lemma {:induction false} SummariseAccounts(issues: seq<ClassifiedIssue>)
    ensures var s := Summarise(issues);
      |s.one| + |s.twoPlus| + |s.conditional| + |Bucket(issues, NoForward)| == s.total
  {
    if |issues| > 0 {
      SummariseAccounts(issues[1..]);
    }
  }

  const OneHeader: string := "Issues with one getattr: "
  const TwoPlusHeader: string := "Issues with two+ getattr: "
  const ConditionalHeader: string := "Issues with a conditional number of getattr: "
  const TotalHeader: string := "Total issues: "

  /** The `- at {file}, line {line}` text of one entry. */
  function EntryText(l: SummaryLine): string {
    "- at " + l.filename + ", line " + NatToDecimal(l.line)
  }

  /** The summary text, one line per entry (each followed by a newline in
      the rendered string): each bucket's header with its size, then its
      entries in order, and the total last. */
  function RenderSummary(s: Summary): (lines: seq<string>)
    ensures var one, two, cond := RenderLines(s.one), RenderLines(s.twoPlus), RenderLines(s.conditional);
      var a := 1 + |one|;
      var b := a + 1 + |two|;
      var c := b + 1 + |cond|;
      && |lines| == c + 1
      && lines[0] == OneHeader + NatToDecimal(|s.one|)
      && lines[1..a] == one
      && lines[a] == TwoPlusHeader + NatToDecimal(|s.twoPlus|)
      && lines[a + 1..b] == two
      && lines[b] == ConditionalHeader + NatToDecimal(|s.conditional|)
      && lines[b + 1..c] == cond
      && lines[c] == TotalHeader + NatToDecimal(s.total)
  {
    var h1, h2, h3 := OneHeader + NatToDecimal(|s.one|), TwoPlusHeader + NatToDecimal(|s.twoPlus|),
      ConditionalHeader + NatToDecimal(|s.conditional|);
    var last := TotalHeader + NatToDecimal(s.total);
    var one, two, cond := RenderLines(s.one), RenderLines(s.twoPlus), RenderLines(s.conditional);
    ThreeBlocks(h1, one, h2, two, h3, cond, last);
    [h1] + one + ([h2] + two) + ([h3] + cond) + [last]
  }

  /** Where the parts of three headed blocks and a last line sit once
      concatenated. */
  lemma ThreeBlocks<T>(h1: T, x: seq<T>, h2: T, y: seq<T>, h3: T, z: seq<T>, last: T)
    ensures var l := [h1] + x + ([h2] + y) + ([h3] + z) + [last];
      var a := 1 + |x|;
      var b := a + 1 + |y|;
      var c := b + 1 + |z|;
      && |l| == c + 1
      && l[0] == h1 && l[1..a] == x
      && l[a] == h2 && l[a + 1..b] == y
      && l[b] == h3 && l[b + 1..c] == z
      && l[c] == last
  {
    var l := [h1] + x + ([h2] + y) + ([h3] + z) + [last];
    var a := 1 + |x|;
    var b := a + 1 + |y|;
    assert l[1..a] == x;
    assert l[a + 1..b] == y;
    assert l[b + 1..b + 1 + |z|] == z;
  }

  /** The entry lines, in order. */
  function RenderLines(ls: seq<SummaryLine>): (r: seq<string>)
    ensures |r| == |ls|
  {
    seq(|ls|, k requires 0 <= k < |ls| => EntryText(ls[k]))
  }

  /** The `k`th entry line is the text of the `k`th entry. */
  lemma RenderLinesAt(ls: seq<SummaryLine>, k: nat)
    requires k < |ls|
    ensures RenderLines(ls)[k] == EntryText(ls[k])
  {
  }

  /** The count a header line announces, read back. */
  function HeaderCount(line: string, header: string): (n: Option<nat>)
  {
    if StartsWith(line, header) then ParseNat(line[|header|..]) else None
  }

  lemma HeaderCountReadsBack(header: string, n: nat)
    ensures HeaderCount(header + NatToDecimal(n), header) == Some(n)
  {
    assert (header + NatToDecimal(n))[|header|..] == NatToDecimal(n);
    ParseNatToDecimal(n);
  }

  /** How many issues fall in class `c`, counted independently of the
      buckets. */
  function ClassCount(issues: seq<ClassifiedIssue>, c: GetAttrCount): nat {
    multiset(seq(|issues|, k requires 0 <= k < |issues| => issues[k].getattrCount))[c]
  }

  /** A bucket holds one line per issue of its class and no other. */
  lemma {:induction false} BucketCount(issues: seq<ClassifiedIssue>, c: GetAttrCount)
    ensures |Bucket(issues, c)| == ClassCount(issues, c)
  {
    if |issues| > 0 {
      BucketCount(issues[1..], c);
      var all := seq(|issues|, k requires 0 <= k < |issues| => issues[k].getattrCount);
      var rest := seq(|issues| - 1, k requires 0 <= k < |issues| - 1 => issues[1..][k].getattrCount);
      assert all == [issues[0].getattrCount] + rest;
    }
  }

  /** The bucket's lines are exactly the locations of the issues of its
      class. */
  lemma {:induction false} BucketMembers(issues: seq<ClassifiedIssue>, c: GetAttrCount, x: SummaryLine)
    ensures x in Bucket(issues, c) <==>
      exists i :: 0 <= i < |issues| && issues[i].getattrCount == c && LineOf(issues[i]) == x
  {
    if |issues| > 0 {
      BucketMembers(issues[1..], c, x);
      if x in Bucket(issues[1..], c) {
        var i :| 1 <= i + 1 < |issues| && issues[1..][i].getattrCount == c && LineOf(issues[1..][i]) == x;
        assert issues[i + 1] == issues[1..][i];
      }
      if exists i :: 0 <= i < |issues| && issues[i].getattrCount == c && LineOf(issues[i]) == x {
        var i :| 0 <= i < |issues| && issues[i].getattrCount == c && LineOf(issues[i]) == x;
        if i > 0 {
          assert issues[1..][i - 1] == issues[i];
        }
      }
    }
  }

  /** A block of entry lines lists the location of every issue of class
      `c` and of nothing else. */
  predicate ListsClass(block: seq<string>, issues: seq<ClassifiedIssue>, c: GetAttrCount) {
    && (forall i :: 0 <= i < |issues| && issues[i].getattrCount == c ==> EntryText(LineOf(issues[i])) in block)
    && (forall l :: l in block ==>
          exists i :: 0 <= i < |issues| && issues[i].getattrCount == c && l == EntryText(LineOf(issues[i])))
  }

  lemma BlockListsClass(issues: seq<ClassifiedIssue>, c: GetAttrCount)
    ensures ListsClass(RenderLines(Bucket(issues, c)), issues, c)
  {
    var b := Bucket(issues, c);
    var block := RenderLines(b);
    forall i | 0 <= i < |issues| && issues[i].getattrCount == c
      ensures EntryText(LineOf(issues[i])) in block
    {
      BucketMembers(issues, c, LineOf(issues[i]));
      var k :| 0 <= k < |b| && b[k] == LineOf(issues[i]);
      RenderLinesAt(b, k);
    }
    forall l | l in block
      ensures exists i :: 0 <= i < |issues| && issues[i].getattrCount == c && l == EntryText(LineOf(issues[i]))
    {
      var k :| 0 <= k < |block| && block[k] == l;
      RenderLinesAt(b, k);
      BucketMembers(issues, c, b[k]);
    }
  }

  /** One bucket's header and block, as rendered for class `c`. */
  lemma BucketBlock(issues: seq<ClassifiedIssue>, c: GetAttrCount, header: string)
    ensures HeaderCount(header + NatToDecimal(|Bucket(issues, c)|), header) == Some(ClassCount(issues, c))
    ensures |Bucket(issues, c)| == ClassCount(issues, c)
    ensures ListsClass(RenderLines(Bucket(issues, c)), issues, c)
  {
    BucketCount(issues, c);
    BlockListsClass(issues, c);
    HeaderCountReadsBack(header, |Bucket(issues, c)|);
  }

  /** Where the rendered summary of a results file puts each bucket, with
      the bucket sizes counted independently. */
  lemma SummaryLayout(issues: seq<ClassifiedIssue>)
    ensures var lines := RenderSummary(Summarise(issues));
      var a := 1 + ClassCount(issues, One);
      var b := a + 1 + ClassCount(issues, TwoPlus);
      var c := b + 1 + ClassCount(issues, Conditional);
      && |lines| == c + 1
      && lines[0] == OneHeader + NatToDecimal(|Bucket(issues, One)|)
      && lines[1..a] == RenderLines(Bucket(issues, One))
      && lines[a] == TwoPlusHeader + NatToDecimal(|Bucket(issues, TwoPlus)|)
      && lines[a + 1..b] == RenderLines(Bucket(issues, TwoPlus))
      && lines[b] == ConditionalHeader + NatToDecimal(|Bucket(issues, Conditional)|)
      && lines[b + 1..c] == RenderLines(Bucket(issues, Conditional))
      && lines[c] == TotalHeader + NatToDecimal(|issues|)
  {
    var s := Summarise(issues);
    var lines := RenderSummary(s);
    BucketCount(issues, One);
    BucketCount(issues, TwoPlus);
    BucketCount(issues, Conditional);
    assert |RenderLines(s.one)| == ClassCount(issues, One);
    assert |RenderLines(s.twoPlus)| == ClassCount(issues, TwoPlus);
    assert |RenderLines(s.conditional)| == ClassCount(issues, Conditional);
  }

  /** A header at `at` followed by the rendered bucket of class `c` up to
      `hi` announces and lists exactly the issues of that class. */
  lemma BlockAt(lines: seq<string>, at: nat, hi: nat, issues: seq<ClassifiedIssue>, c: GetAttrCount, header: string)
    requires at < |lines| && at + 1 <= hi <= |lines|
    requires lines[at] == header + NatToDecimal(|Bucket(issues, c)|)
    requires lines[at + 1..hi] == RenderLines(Bucket(issues, c))
    ensures HeaderCount(lines[at], header) == Some(ClassCount(issues, c))
    ensures ListsClass(lines[at + 1..hi], issues, c)
  {
    BucketBlock(issues, c, header);
  }

  /** The first block of the rendered summary: issues with one getattr. */
  lemma SummaryOneBlock(issues: seq<ClassifiedIssue>)
    ensures var lines := RenderSummary(Summarise(issues));
      var a := 1 + ClassCount(issues, One);
      && a < |lines|
      && HeaderCount(lines[0], OneHeader) == Some(ClassCount(issues, One))
      && ListsClass(lines[1..a], issues, One)
  {
    var lines := RenderSummary(Summarise(issues));
    var a := 1 + ClassCount(issues, One);
    SummaryLayout(issues);
    BlockAt(lines, 0, a, issues, One, OneHeader);
  }

  /** The second block: issues with two or more getattrs. */
  lemma SummaryTwoPlusBlock(issues: seq<ClassifiedIssue>)
    ensures var lines := RenderSummary(Summarise(issues));
      var a := 1 + ClassCount(issues, One);
      var b := a + 1 + ClassCount(issues, TwoPlus);
      && b < |lines|
      && HeaderCount(lines[a], TwoPlusHeader) == Some(ClassCount(issues, TwoPlus))
      && ListsClass(lines[a + 1..b], issues, TwoPlus)
  {
    var lines := RenderSummary(Summarise(issues));
    var a := 1 + ClassCount(issues, One);
    var b := a + 1 + ClassCount(issues, TwoPlus);
    SummaryLayout(issues);
    BlockAt(lines, a, b, issues, TwoPlus, TwoPlusHeader);
  }

  /** The third block: issues with a conditional number of getattrs. */
  lemma SummaryConditionalBlock(issues: seq<ClassifiedIssue>)
    ensures var lines := RenderSummary(Summarise(issues));
      var a := 1 + ClassCount(issues, One);
      var b := a + 1 + ClassCount(issues, TwoPlus);
      var c := b + 1 + ClassCount(issues, Conditional);
      && |lines| == c + 1
      && HeaderCount(lines[b], ConditionalHeader) == Some(ClassCount(issues, Conditional))
      && ListsClass(lines[b + 1..c], issues, Conditional)
      && HeaderCount(lines[c], TotalHeader) == Some(|issues|)
  {
    var lines := RenderSummary(Summarise(issues));
    var a := 1 + ClassCount(issues, One);
    var b := a + 1 + ClassCount(issues, TwoPlus);
    var c := b + 1 + ClassCount(issues, Conditional);
    SummaryLayout(issues);
    BlockAt(lines, b, c, issues, Conditional, ConditionalHeader);
    HeaderCountReadsBack(TotalHeader, |issues|);
  }

  /** The rendered summary of a results file: each header announces how
      many issues have its class, its block lists exactly those issues'
      locations, and the last line announces the number of issues. */
  lemma SummaryDescribesIssues(issues: seq<ClassifiedIssue>)
    ensures var lines := RenderSummary(Summarise(issues));
      var a := 1 + ClassCount(issues, One);
      var b := a + 1 + ClassCount(issues, TwoPlus);
      var c := b + 1 + ClassCount(issues, Conditional);
      && |lines| == c + 1
      && HeaderCount(lines[0], OneHeader) == Some(ClassCount(issues, One))
      && ListsClass(lines[1..a], issues, One)
      && HeaderCount(lines[a], TwoPlusHeader) == Some(ClassCount(issues, TwoPlus))
      && ListsClass(lines[a + 1..b], issues, TwoPlus)
      && HeaderCount(lines[b], ConditionalHeader) == Some(ClassCount(issues, Conditional))
      && ListsClass(lines[b + 1..c], issues, Conditional)
      && HeaderCount(lines[c], TotalHeader) == Some(|issues|)
  {
    SummaryOneBlock(issues);
    SummaryTwoPlusBlock(issues);
    SummaryConditionalBlock(issues);
  }

  // ---------------------------------------------------------------------
  // Issues as stored in reports

  /** A step of a reconstructed trace; only what the reports compare and
      display is kept. */
  datatype TraceEntry = TraceEntry(callable: string, location: Location)

  datatype NotVulnerableReason =
    | ModifiedReference
    | NonRecursive
    | FilteredInput
    | NotControlled
    | OtherReason(notes: string)

  /** A labeller's verdict on an issue. */
  datatype IssueLabel = Unlabeled | Vulnerable | NotVulnerable(reasons: seq<NotVulnerableReason>)

  /** Rust's `ProcessedIssue` of the report-keeping revision. */
  datatype ProcessedIssue = ProcessedIssue(
    location: Location,
    trace: seq<TraceEntry>,
    getattrCount: GetAttrCount,
    issueLabel: IssueLabel)
}
