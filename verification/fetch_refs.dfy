/** Pinning each repository found by the search to a commit
    (data/github/02_fetch_refs.py): the repositories of the saved search
    pages are visited in order, each `(id, branch)` at most once, also
    across runs, whose keys are read back from `revs.txt`; the head of the
    branch is asked of `git ls-remote`, checked, and appended to `revs.txt`
    as a tab-separated line. The directory listing, the page contents and
    the output of `git` are inputs. */
module FetchRefs {
  import opened Wrappers
  import opened Strings
  import opened Collate
  import opened GetRepos

  // ---------------------------------------------------------------------
  // The files read

  /** The names of the search pages read: the regular files whose names
      match the page pattern, in listing order. */
  function PageFiles(entries: seq<DataEntry>): (r: seq<string>)
    ensures |r| <= |entries|
    ensures forall name :: name in r <==>
      exists k :: 0 <= k < |entries| && IsPageFile(entries[k]) && entries[k].name == name
    ensures forall k :: 0 <= k < |r| ==> MatchPageFile(r[k]).Some?
  {
    if |entries| == 0 then []
    else
      var rest := PageFiles(entries[1..]);
      assert forall k :: 0 <= k < |entries| - 1 ==> entries[1..][k] == entries[k + 1];
      if IsPageFile(entries[0]) then [entries[0].name] + rest else rest
  }

  /** Every page `try_resume` could pick is among the pages read here. */
  lemma ResumedPageIsRead(entries: seq<DataEntry>)
    requires TryResume(entries).Some?
    ensures TryResume(entries).value.0 in PageFiles(entries)
  {
  }

  // ---------------------------------------------------------------------
  // Lines of `revs.txt`

  /** The text of a file as its lines, each with its `\n` except maybe the
      last: what iterating over an open file yields. */
  function FileLines(content: string): (r: seq<string>)
    ensures forall k :: 0 <= k < |r| ==> |r[k]| > 0
    decreases |content|
  {
    if |content| == 0 then []
    else
      match IndexOf(content, '\n')
      case None => [content]
      case Some(i) => [content[..i + 1]] + FileLines(content[i + 1..])
  }

  /** The lines one after the other. */
  function Concat(lines: seq<string>): string {
    if |lines| == 0 then "" else lines[0] + Concat(lines[1..])
  }

  /** Text that is empty or ends its last line. */
  predicate EndsLine(s: string) {
    |s| == 0 || s[|s| - 1] == '\n'
  }

  /** A line written whole: one `\n`, at the end. */
  predicate WholeLine(line: string) {
    |line| > 0 && line[|line| - 1] == '\n' && '\n' !in line[..|line| - 1]
  }

  /** Cutting at a `\n` of the first part cuts the whole there. */
  lemma IndexOfPrefix(a: string, b: string, c: char)
    requires c in a
    ensures IndexOf(a + b, c) == IndexOf(a, c)
  {
    var i := IndexOf(a, c).value;
    var j := IndexOf(a + b, c).value;
    assert (a + b)[i] == c;
    assert a[j] == (a + b)[j];
  }

  /** The lines of text that ends its last line, followed by more text,
      are its lines followed by those of the rest. */
  lemma {:induction false} FileLinesAppend(a: string, b: string)
    requires EndsLine(a)
    ensures FileLines(a + b) == FileLines(a) + FileLines(b)
    decreases |a|
  {
    if |a| > 0 {
      var i := FirstLineBreak(a, b);
      var t := a[i + 1..];
      RestEndsLine(a, i);
      FileLinesAppend(t, b);
      ConsAppend(a[..i + 1], FileLines(t), FileLines(b));
    } else {
      NoLinesAppend(a, b);
    }
  }

  lemma ConsAppend(x: string, xs: seq<string>, ys: seq<string>)
    ensures [x] + (xs + ys) == ([x] + xs) + ys
  {
  }

  lemma NoLinesAppend(a: string, b: string)
    requires |a| == 0
    ensures FileLines(a + b) == FileLines(a) + FileLines(b)
  {
    assert a + b == b;
  }

  /** Text ending its last line has a first line, and so has the text
      followed by more. */
  lemma FirstLineBreak(a: string, b: string) returns (i: nat)
    requires |a| > 0 && EndsLine(a)
    ensures i < |a|
    ensures FileLines(a) == [a[..i + 1]] + FileLines(a[i + 1..])
    ensures FileLines(a + b) == [a[..i + 1]] + FileLines(a[i + 1..] + b)
  {
    assert a[|a| - 1] == '\n';
    IndexOfPrefix(a, b, '\n');
    i := IndexOf(a, '\n').value;
    AppendCut(a, b, i);
    FileLinesCut(a);
    FileLinesCut(a + b);
  }

  /** The lines of text holding a `\n`: the first line, then the rest. */
  lemma FileLinesCut(s: string)
    requires '\n' in s
    ensures FileLines(s) == [s[..IndexOf(s, '\n').value + 1]] + FileLines(s[IndexOf(s, '\n').value + 1..])
  {
  }

  lemma AppendCut(a: string, b: string, i: nat)
    requires i < |a|
    ensures (a + b)[..i + 1] == a[..i + 1] && (a + b)[i + 1..] == a[i + 1..] + b
  {
  }

  lemma RestEndsLine(a: string, i: nat)
    requires i < |a| && EndsLine(a)
    ensures EndsLine(a[i + 1..])
  {
    var t := a[i + 1..];
    if |t| > 0 {
      assert t[|t| - 1] == a[|a| - 1];
    }
  }

  /** A whole line is read as one line. */
  lemma FileLinesWhole(line: string)
    requires WholeLine(line)
    ensures FileLines(line) == [line]
  {
    assert IndexOf(line, '\n') == Some(|line| - 1) by {
      var i := IndexOf(line, '\n').value;
      assert i >= |line| - 1 by {
        assert forall k :: 0 <= k < |line| - 1 ==> line[..|line| - 1][k] == line[k];
      }
    }
    assert line[..|line|] == line;
    assert line[|line|..] == "";
  }

  /** Whole lines one after the other end their last line. */
  lemma {:induction false} ConcatEndsLine(lines: seq<string>)
    requires forall k :: 0 <= k < |lines| ==> WholeLine(lines[k])
    ensures EndsLine(Concat(lines))
    decreases |lines|
  {
    if |lines| > 0 {
      var line := lines[0];
      var rest := Concat(lines[1..]);
      ConcatEndsLine(lines[1..]);
      assert Concat(lines) == line + rest;
      if |rest| > 0 {
        assert (line + rest)[|line + rest| - 1] == rest[|rest| - 1];
      }
    }
  }

  /** Whole lines written one after the other are read back as written. */
  lemma {:induction false} FileLinesConcat(lines: seq<string>)
    requires forall k :: 0 <= k < |lines| ==> WholeLine(lines[k])
    ensures FileLines(Concat(lines)) == lines
    decreases |lines|
  {
    if |lines| > 0 {
      var line := lines[0];
      var rest := Concat(lines[1..]);
      FileLinesConcat(lines[1..]);
      assert Concat(lines) == line + rest;
      FileLinesAppend(line, rest);
      FileLinesWhole(line);
      assert lines == [line] + lines[1..];
    }
  }

  /** The lines of text that ends its last line, followed by whole lines. */
  lemma AppendedLines(content: string, lines: seq<string>)
    requires EndsLine(content)
    requires forall k :: 0 <= k < |lines| ==> WholeLine(lines[k])
    ensures FileLines(content + Concat(lines)) == FileLines(content) + lines
  {
    FileLinesAppend(content, Concat(lines));
    FileLinesConcat(lines);
  }

  /** `f"{rev}\t{id}\t{branch}\n"`. */
  function RevLine(rev: string, id: string, branch: string): string {
    rev + "\t" + id + "\t" + branch + "\n"
  }

  /** `(data[1].strip(), data[2].strip())` of `line.split("\t")`; `None`
      where a missing field raises. */
  function ReadKey(line: string): (r: Option<(string, string)>)
    ensures r.None? <==> |Split(line, '\t')| < 3
  {
    var data := Split(line, '\t');
    if |data| < 3 then None else Some((Strip(data[1]), Strip(data[2])))
  }

  /** A rev line whose id and branch hold no whitespace, and whose rev no
      tab, reads back as its key. */
  lemma RevLineKey(rev: string, id: string, branch: string)
    requires '\t' !in rev && NoPySpace(id) && NoPySpace(branch)
    ensures ReadKey(RevLine(rev, id, branch)) == Some((id, branch))
  {
    assert IsPySpace('\t') && IsPySpace('\n');
    var parts := [rev, id, branch + "\n"];
    assert RevLine(rev, id, branch) == Join(parts, '\t') by {
      assert Join(parts[2..], '\t') == branch + "\n";
      assert Join(parts[1..], '\t') == id + "\t" + (branch + "\n");
    }
    assert '\t' !in id;
    assert '\t' !in branch + "\n";
    SplitJoin(parts, '\t');
    StripTrailing(id, "");
    assert id + "" == id;
    StripTrailing(branch, "\n");
  }

  /** A rev line is a whole line when its fields hold no `\n`. */
  lemma RevLineWhole(rev: string, id: string, branch: string)
    requires '\n' !in rev && '\n' !in id && '\n' !in branch
    ensures WholeLine(RevLine(rev, id, branch))
  {
    var line := RevLine(rev, id, branch);
    assert line[..|line| - 1] == rev + "\t" + id + "\t" + branch;
  }

  /** The keys of `revs.txt`. */
  function ReadSeen(content: string): Option<set<(string, string)>> {
    AllKeys(FileLines(content), ReadKey)
  }

  // ---------------------------------------------------------------------
  // Asking `git ls-remote`

  /** What `git ls-remote <clone_url> refs/heads/<branch>` printed. */
  datatype LsRemote = LsRemote(stdout: string, stderr: string)

  /** Why a rev is not accepted: each is an `assert` of the script, or a
      missing field. */
  datatype RevRejected = StderrNotEmpty | NoRefField | WrongRef(ref: string) | BadRevLength(rev: string)

  const HeadsPrefix: string := "refs/heads/"

  /** The first line of the stripped output, split at tabs. */
  function LsRemoteFields(out: LsRemote): (r: seq<string>)
    ensures |r| >= 1
  {
    Split(Split(StripAscii(out.stdout), '\n')[0], '\t')
  }

  /** The checks on `git ls-remote`'s answer: nothing on stderr, the ref
      of the first line is the requested branch, and the rev is 40
      characters long (a SHA-1 in hex). */
  function AcceptRev(out: LsRemote, branch: string): (r: Result<string, RevRejected>)
    ensures r.Ok? <==>
      && out.stderr == ""
      && |LsRemoteFields(out)| >= 2
      && LsRemoteFields(out)[1] == HeadsPrefix + branch
      && |LsRemoteFields(out)[0]| == 40
    ensures r.Ok? ==> r.value == LsRemoteFields(out)[0] && '\t' !in r.value && '\n' !in r.value
    ensures r == Err(StderrNotEmpty) <==> out.stderr != ""
  {
    if out.stderr != "" then Err(StderrNotEmpty)
    else
      var lines := Split(StripAscii(out.stdout), '\n');
      var data := Split(lines[0], '\t');
      if |data| < 2 then Err(NoRefField)
      else if data[1] != HeadsPrefix + branch then Err(WrongRef(data[1]))
      else if |data[0]| != 40 then Err(BadRevLength(data[0]))
      else Ok(data[0])
  }

  /** What `git` prints for the head of a branch. */
  function HeadLine(rev: string, ref: string): string {
    rev + "\t" + ref + "\n"
  }

  /** Stripping ASCII whitespace off text that begins and ends with other
      characters and is followed by a newline. */
  lemma StripNewline(s: string)
    requires |s| > 0 && !IsAsciiSpace(s[0]) && !IsAsciiSpace(s[|s| - 1])
    ensures StripAscii(s + "\n") == s
  {
    assert TrimStart(s + "\n", IsAsciiSpace) == s + "\n";
    assert (s + "\n")[..|s + "\n"| - 1] == s;
    assert IsAsciiSpace('\n');
    assert TrimEnd(s, IsAsciiSpace) == s;
  }

  lemma HeadLineFields(rev: string, ref: string)
    requires |rev| > 0 && |ref| > 0 && NoPySpace(rev) && NoPySpace(ref)
    ensures LsRemoteFields(LsRemote(HeadLine(rev, ref), "")) == [rev, ref]
  {
    assert IsPySpace('\t') && IsPySpace('\n');
    var s := rev + "\t" + ref;
    assert HeadLine(rev, ref) == s + "\n";
    assert s[0] == rev[0];
    assert s[|s| - 1] == ref[|ref| - 1];
    StripNewline(s);
    assert '\n' !in s by {
      assert forall k :: 0 <= k < |s| ==> s[k] == (if k < |rev| then rev[k] else if k == |rev| then '\t' else ref[k - |rev| - 1]);
    }
    assert Split(s, '\n') == [s];
    assert s == Join([rev, ref], '\t');
    SplitJoin([rev, ref], '\t');
  }

  /** A 40-character rev reported for the requested branch, with nothing
      on stderr, is accepted. */
  lemma AcceptHeadLine(rev: string, branch: string)
    requires |rev| == 40 && NoPySpace(rev) && NoPySpace(branch)
    ensures AcceptRev(LsRemote(HeadLine(rev, HeadsPrefix + branch), ""), branch) == Ok(rev)
  {
    assert NoPySpace(HeadsPrefix + branch) by {
      assert forall k :: 0 <= k < |HeadsPrefix| ==> !IsPySpace(HeadsPrefix[k]);
      assert forall k :: 0 <= k < |branch| ==> (HeadsPrefix + branch)[|HeadsPrefix| + k] == branch[k];
    }
    HeadLineFields(rev, HeadsPrefix + branch);
  }

  /** The head of another branch is refused, naming the ref found. */
  lemma RejectOtherBranch(rev: string, ref: string, branch: string)
    requires |rev| > 0 && |ref| > 0 && NoPySpace(rev) && NoPySpace(ref) && ref != HeadsPrefix + branch
    ensures AcceptRev(LsRemote(HeadLine(rev, ref), ""), branch) == Err(WrongRef(ref))
  {
    HeadLineFields(rev, ref);
  }

  /** A rev of another length is refused. */
  lemma RejectShortRev(rev: string, branch: string)
    requires |rev| > 0 && |rev| != 40 && NoPySpace(rev) && NoPySpace(branch)
    ensures AcceptRev(LsRemote(HeadLine(rev, HeadsPrefix + branch), ""), branch) == Err(BadRevLength(rev))
  {
    assert NoPySpace(HeadsPrefix + branch) by {
      assert forall k :: 0 <= k < |HeadsPrefix| ==> !IsPySpace(HeadsPrefix[k]);
      assert forall k :: 0 <= k < |branch| ==> (HeadsPrefix + branch)[|HeadsPrefix| + k] == branch[k];
    }
    HeadLineFields(rev, HeadsPrefix + branch);
  }

  // ---------------------------------------------------------------------
  // The fetching loop

  /** What the script reads of a search result. */
  datatype Repo = Repo(id: nat, fullName: string, branch: string, cloneUrl: string)

  /** `(str(id), branch)`. */
  function Key(repo: Repo): (string, string) {
    (NatToDecimal(repo.id), repo.branch)
  }

  /** How a run ended early, if it did. */
  datatype FetchFailure = MalformedRevsFile | Rejected(repo: Repo, reason: RevRejected)

  /** The lines a run appended to `revs.txt`, and why it stopped early. */
  datatype FetchRun = FetchRun(written: seq<string>, failure: Option<FetchFailure>)

  /** `git ls-remote` on a repository's clone URL and branch head. */
  function Ask(run: (string, string) -> LsRemote, repo: Repo): LsRemote {
    run(repo.cloneUrl, HeadsPrefix + repo.branch)
  }

  /** The verdict on each repository's head, given what `git` prints. */
  function Verdicts(run: (string, string) -> LsRemote): Repo -> Result<string, RevRejected> {
    repo => AcceptRev(Ask(run, repo), repo.branch)
  }

  /** Fetching the repositories to do in order until one is refused
      (reference definition, from the end). */
  function FetchEach(todo: seq<Repo>, verdict: Repo -> Result<string, RevRejected>): (r: FetchRun)
    ensures |r.written| <= |todo|
    ensures r.failure.None? <==> |r.written| == |todo|
    ensures r.failure.Some? ==>
      verdict(todo[|r.written|]).Err?
      && r.failure.value == Rejected(todo[|r.written|], verdict(todo[|r.written|]).error)
    ensures forall k :: 0 <= k < |r.written| ==>
      verdict(todo[k]).Ok?
      && r.written[k] == RevLine(verdict(todo[k]).value, NatToDecimal(todo[k].id), todo[k].branch)
    decreases |todo|
  {
    if |todo| == 0 then FetchRun([], None)
    else
      var init := todo[..|todo| - 1];
      var repo := todo[|todo| - 1];
      var before := FetchEach(init, verdict);
      assert forall k :: 0 <= k < |init| ==> init[k] == todo[k];
      if before.failure.Some? then before
      else
        match verdict(repo)
        case Err(e) => FetchRun(before.written, Some(Rejected(repo, e)))
        case Ok(rev) => FetchRun(before.written + [RevLine(rev, NatToDecimal(repo.id), repo.branch)], None)
  }

  /** Fetching the repositories to do in order; once a check fails the
      script stops and asks for no further repository. */
  method FetchAll(todo: seq<Repo>, verdict: Repo -> Result<string, RevRejected>) returns (r: FetchRun)
    ensures r == FetchEach(todo, verdict)
  {
    r := FetchRun([], None);
    for i := 0 to |todo|
      invariant r == FetchEach(todo[..i], verdict)
    {
      assert todo[..i + 1][..i] == todo[..i];
      if r.failure.None? {
        var repo := todo[i];
        match verdict(repo)
        case Err(e) =>
          r := FetchRun(r.written, Some(Rejected(repo, e)));
        case Ok(rev) =>
          r := FetchRun(r.written + [RevLine(rev, NatToDecimal(repo.id), repo.branch)], None);
      }
    }
    assert todo[..|todo|] == todo;
  }

  /** The script: read the known keys from `revs.txt`, then visit the
      repositories of the pages in order, skipping a key already seen and
      fetching the rest until a check fails. */
  method FetchRefs(content: string, repos: seq<Repo>, run: (string, string) -> LsRemote) returns (r: FetchRun)
    ensures ReadSeen(content).None? ==> r == FetchRun([], Some(MalformedRevsFile))
    ensures ReadSeen(content).Some? ==> r == FetchEach(FirstOccurrences(ReadSeen(content).value, repos, Key), Verdicts(run))
  {
    var seen := CollectKeys(FileLines(content), ReadKey);
    if seen.None? {
      return FetchRun([], Some(MalformedRevsFile));
    }
    var todo, _ := DedupFirst(seen.value, repos, Key);
    r := FetchAll(todo, Verdicts(run));
  }

  /** Every repository's key is fetched at most once, and not at all when
      an earlier run already recorded it. */
  lemma FetchedOnce(seen: set<(string, string)>, repos: seq<Repo>, verdict: Repo -> Result<string, RevRejected>)
    ensures var todo := FirstOccurrences(seen, repos, Key);
      var r := FetchEach(todo, verdict);
      forall i, j :: 0 <= i < j < |r.written| ==> Key(todo[i]) != Key(todo[j])
    ensures var todo := FirstOccurrences(seen, repos, Key);
      forall k :: 0 <= k < |FetchEach(todo, verdict).written| ==> Key(todo[k]) !in seen
  {
    FirstOccurrencesDistinct(seen, repos, Key);
  }

  /** Accepted revs hold no tab or newline, as `AcceptRev` guarantees. */
  ghost predicate CleanVerdicts(verdict: Repo -> Result<string, RevRejected>) {
    forall repo :: verdict(repo).Ok? ==> '\t' !in verdict(repo).value && '\n' !in verdict(repo).value
  }

  lemma VerdictsClean(run: (string, string) -> LsRemote)
    ensures CleanVerdicts(Verdicts(run))
  {
    forall repo ensures Verdicts(run)(repo).Ok? ==> '\t' !in Verdicts(run)(repo).value && '\n' !in Verdicts(run)(repo).value {
      var r := AcceptRev(Ask(run, repo), repo.branch);
      assert Verdicts(run)(repo) == r;
    }
  }

  /** The lines a run writes are whole lines that read back as the keys
      of the repositories fetched. */
  lemma WrittenLines(todo: seq<Repo>, verdict: Repo -> Result<string, RevRejected>)
    requires CleanVerdicts(verdict)
    requires forall k :: 0 <= k < |todo| ==> NoPySpace(todo[k].branch)
    ensures var written := FetchEach(todo, verdict).written;
      forall k :: 0 <= k < |written| ==> WholeLine(written[k]) && ReadKey(written[k]) == Some(Key(todo[k]))
  {
    var written := FetchEach(todo, verdict).written;
    forall k | 0 <= k < |written|
      ensures WholeLine(written[k]) && ReadKey(written[k]) == Some(Key(todo[k]))
    {
      RepoRevLine(verdict(todo[k]).value, todo[k]);
    }
  }

  /** The line written for a repository is whole and reads back as its
      key. */
  lemma RepoRevLine(rev: string, repo: Repo)
    requires '\t' !in rev && '\n' !in rev && NoPySpace(repo.branch)
    ensures WholeLine(RevLine(rev, NatToDecimal(repo.id), repo.branch))
    ensures ReadKey(RevLine(rev, NatToDecimal(repo.id), repo.branch)) == Some(Key(repo))
  {
    var id := NatToDecimal(repo.id);
    assert NoPySpace(id) by {
      forall c | 0 <= c < |id| ensures !IsPySpace(id[c]) {
        assert IsDigit(id[c]);
      }
    }
    assert '\n' !in id && '\n' !in repo.branch by {
      assert IsPySpace('\n');
    }
    RevLineKey(rev, id, repo.branch);
    RevLineWhole(rev, id, repo.branch);
  }

  /** The keys of the lines a run writes are those of the repositories
      fetched. */
  lemma WrittenKeys(todo: seq<Repo>, verdict: Repo -> Result<string, RevRejected>)
    requires CleanVerdicts(verdict)
    requires forall k :: 0 <= k < |todo| ==> NoPySpace(todo[k].branch)
    ensures var written := FetchEach(todo, verdict).written;
      AllKeys(written, ReadKey) == Some(set k | 0 <= k < |written| :: Key(todo[k]))
  {
    var written := FetchEach(todo, verdict).written;
    WrittenLines(todo, verdict);
    LinesOfKeys(written, todo);
  }

  /** Lines that read back as the keys of the first repositories give
      those keys. */
  lemma LinesOfKeys(lines: seq<string>, repos: seq<Repo>)
    requires |lines| <= |repos|
    requires forall k :: 0 <= k < |lines| ==> ReadKey(lines[k]) == Some(Key(repos[k]))
    ensures AllKeys(lines, ReadKey) == Some(set k | 0 <= k < |lines| :: Key(repos[k]))
  {
    var keys := seq(|lines|, k requires 0 <= k < |lines| => Key(repos[k]));
    AllKeysOf(lines, ReadKey, keys);
    var fetched := set k | 0 <= k < |lines| :: Key(repos[k]);
    forall x | x in fetched ensures x in keys {
      var k :| 0 <= k < |lines| && x == Key(repos[k]);
      assert keys[k] == x;
    }
    assert (set k | 0 <= k < |keys| :: keys[k]) == fetched;
  }

  /** After a run, reading `revs.txt` again gives the keys known before
      and those of the repositories just fetched; so a resumed run skips
      them; and the file still ends its last line, so the same holds for
      the run after. Branch names hold no whitespace, and the revs accepted
      hold no tab or newline (`VerdictsClean`). */
  lemma ResumeSeesFetched(content: string, todo: seq<Repo>, verdict: Repo -> Result<string, RevRejected>)
    requires CleanVerdicts(verdict)
    requires ReadSeen(content).Some? && EndsLine(content)
    requires forall k :: 0 <= k < |todo| ==> NoPySpace(todo[k].branch)
    ensures var written := FetchEach(todo, verdict).written;
      ReadSeen(content + Concat(written))
        == Some(ReadSeen(content).value + set k | 0 <= k < |written| :: Key(todo[k]))
    ensures EndsLine(content + Concat(FetchEach(todo, verdict).written))
  {
    var written := FetchEach(todo, verdict).written;
    assert FileLines(content + Concat(written)) == FileLines(content) + written by {
      WrittenLines(todo, verdict);
      AppendedLines(content, written);
    }
    WrittenKeys(todo, verdict);
    AllKeysAppend(FileLines(content), written, ReadKey);
    assert EndsLine(content + Concat(written)) by {
      WrittenLines(todo, verdict);
      ConcatEndsLine(written);
      var rest := Concat(written);
      if |rest| > 0 {
        assert (content + rest)[|content + rest| - 1] == rest[|rest| - 1];
      }
    }
  }
}
