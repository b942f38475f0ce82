/** Dependency discovery and the `uv pip compile` command line
    (tool/src/python/deps.rs): which files at a project's root carry
    dependency information, how lockfiles are exported first, which files
    are kept, and the arguments handed to `uv`. File-system reads and the
    `uv` processes are inputs. */
module Deps {
  import opened Wrappers
  import opened Strings
  import opened Errors
  import opened Config

  // ---------------------------------------------------------------------
  // Kinds of dependency file

  datatype DependencyFileKind =
    | PyProject(groups: seq<string>)
    | SetupPy
    | SetupCfg
    | Requirements
    | UvLock
    | PyLock

  datatype DependencyFile = DependencyFile(kind: DependencyFileKind, path: string)

  /** `supports_extras`. */
  predicate SupportsExtras(k: DependencyFileKind) {
    k.PyProject? || k.SetupPy? || k.SetupCfg?
  }

  /** A root directory entry as the classification sees it: its name (if
      it is UTF-8), whether it is a regular file (or the error asking for
      its type), its path, and what reading it as `pyproject.toml` would
      give (the keys of its dependency groups, or the read/parse error). */
  datatype DepEntry = DepEntry(
    name: Option<string>,
    isFile: Result<bool, string>,
    path: string,
    pyprojectGroups: Result<seq<string>, string>)

  predicate IsPyLockName(name: string) {
    StartsWith(name, "pylock.") && EndsWith(name, ".toml")
  }

  predicate IsRequirementsName(name: string) {
    StartsWith(name, "requirements") && EndsWith(name, ".txt")
  }

  /** `DependencyFile::from_dir_entry`. The `setup.cfg` test of the second
      branch shadows the third, so `SetupCfg` never comes out. */
  function FromDirEntry(e: DepEntry): (r: Result<Option<DependencyFile>, string>)
    ensures e.name.None? ==> r == Ok(None)
    ensures e.name.Some? && e.isFile.Err? ==> r == Err(e.isFile.error)
    ensures e.name.Some? && e.isFile == Ok(false) ==> r == Ok(None)
    ensures r.Err? <==>
      (e.name.Some? && (e.isFile.Err? ||
        (e.isFile == Ok(true) && e.name.value == "pyproject.toml" && e.pyprojectGroups.Err?)))
    ensures r.Ok? && r.value.Some? ==>
      e.name.Some? && e.isFile == Ok(true) && r.value.value.path == e.path && !r.value.value.kind.SetupCfg?
    ensures e.name.Some? && e.isFile == Ok(true) ==>
      var n := e.name.value;
      && (n == "pyproject.toml" && e.pyprojectGroups.Ok? ==>
            r == Ok(Some(DependencyFile(PyProject(e.pyprojectGroups.value), e.path))))
      && (n == "setup.py" || n == "setup.cfg" <==> r.Ok? && r.value.Some? && r.value.value.kind == SetupPy)
      && (n == "uv.lock" <==> r.Ok? && r.value.Some? && r.value.value.kind == UvLock)
      && ((n != "uv.lock" && n != "pyproject.toml" && n != "setup.py" && n != "setup.cfg" && IsPyLockName(n))
            <==> (r.Ok? && r.value.Some? && r.value.value.kind == PyLock))
      && ((!IsPyLockName(n) && n != "uv.lock" && n != "pyproject.toml" && n != "setup.py" && n != "setup.cfg"
            && IsRequirementsName(n)) <==> (r.Ok? && r.value.Some? && r.value.value.kind == Requirements))
  {
    match e.name
    case None => Ok(None)
    case Some(name) =>
      var isFile :- e.isFile;
      if !isFile then Ok(None)
      else
        var kind :-
          if name == "pyproject.toml" then
            match e.pyprojectGroups
            case Err(msg) => Err(msg)
            case Ok(groups) => Ok(Some(PyProject(groups)))
          else if name == "setup.py" || name == "setup.cfg" then Ok(Some(SetupPy))
          else if name == "setup.cfg" then Ok(Some(SetupCfg))
          else if name == "uv.lock" then Ok(Some(UvLock))
          else if IsPyLockName(name) then Ok(Some(PyLock))
          else if IsRequirementsName(name) then Ok(Some(Requirements))
          else Ok(None);
        Ok(match kind case None => None case Some(k) => Some(DependencyFile(k, e.path)))
  }

  /** `pyproject.toml` itself is both a pylock-looking and a plain name: it
      is classified by its exact name first. */
  lemma ExactNamesFirst()
    ensures !IsPyLockName("pyproject.toml") && !IsRequirementsName("setup.py")
    ensures IsPyLockName("pylock.toml") && IsRequirementsName("requirements-dev.txt")
  {
    assert "pyproject.toml"[..7][2] != "pylock."[2];
  }

  // ---------------------------------------------------------------------
  // Discovery

  /** The files a listing classifies as dependency files, in order
      (reference definition over entries that all classify). */
  function Discovered(entries: seq<DepEntry>): seq<DependencyFile>
    requires forall k :: 0 <= k < |entries| ==> FromDirEntry(entries[k]).Ok?
  {
    if |entries| == 0 then []
    else
      var here := FromDirEntry(entries[0]).value;
      (if here.Some? then [here.value] else []) + Discovered(entries[1..])
  }

  /** `discover_dependency_files`: read the root's entries in order; the
      first entry that cannot be read, or that fails to classify, fails
      the discovery. */
  function Discover(entries: seq<Result<DepEntry, string>>): (r: Result<seq<DependencyFile>, string>)
    ensures r.Ok? <==> forall k :: 0 <= k < |entries| ==> entries[k].Ok? && FromDirEntry(entries[k].value).Ok?
    ensures r.Ok? ==> r.value == Discovered(seq(|entries|, k requires 0 <= k < |entries| && entries[k].Ok? => entries[k].value))
    ensures r.Ok? ==> forall f :: f in r.value ==> !f.kind.SetupCfg?
  {
    if |entries| == 0 then Ok([])
    else
      match entries[0]
      case Err(msg) => Err(msg)
      case Ok(e) =>
        match FromDirEntry(e)
        case Err(msg) => Err(msg)
        case Ok(here) =>
          match Discover(entries[1..])
          case Err(msg) =>
            assert !(forall k :: 0 <= k < |entries| ==> entries[k].Ok? && FromDirEntry(entries[k].value).Ok?) by {
              var k :| 0 <= k < |entries[1..]| && !(entries[1..][k].Ok? && FromDirEntry(entries[1..][k].value).Ok?);
              assert entries[k + 1] == entries[1..][k];
            }
            Err(msg)
          case Ok(rest) =>
            var all := seq(|entries|, k requires 0 <= k < |entries| && entries[k].Ok? => entries[k].value);
            assert all[1..] == seq(|entries[1..]|, k requires 0 <= k < |entries[1..]| && entries[1..][k].Ok? => entries[1..][k].value);
            Ok((if here.Some? then [here.value] else []) + rest)
  }

  // ---------------------------------------------------------------------
  // Exporting lockfiles

  /** Why the dependency step stops. */
  datatype DepsError = Io(message: string) | ExportFailed(tool: ToolError) | PyLockUnsupported

  /** Where the `i`-th exported lockfile goes: `requirements-{i}.txt` in the
      work directory. */
  function ExportPath(workdir: string, i: nat): (p: string)
    ensures EndsWith(p, ".txt")
  {
    var p := workdir + "/requirements-" + NatToDecimal(i) + ".txt";
    EndsWithConcat(workdir + "/requirements-" + NatToDecimal(i), ".txt");
    p
  }

  /** The export result for one file: `uv.lock` becomes the exported
      requirements file, every other supported kind is kept. */
  function Exported(d: DependencyFile, workdir: string, i: nat): DependencyFile {
    if d.kind.UvLock? then DependencyFile(Requirements, ExportPath(workdir, i)) else d
  }

  /** Every discovered file after a successful export: each `uv.lock`
      replaced by its exported requirements file. */
  function ExportedAll(deps: seq<DependencyFile>, workdir: string): (r: seq<DependencyFile>)
    ensures |r| == |deps| && forall i :: 0 <= i < |deps| ==> r[i] == Exported(deps[i], workdir, i)
  {
    seq(|deps|, i requires 0 <= i < |deps| => Exported(deps[i], workdir, i))
  }

  /** The file stops the export: a pylock file, or a `uv.lock` whose export
      fails. */
  predicate StopsExport(d: DependencyFile, exportResult: Result<(), ToolError>) {
    d.kind.PyLock? || (d.kind.UvLock? && exportResult.Err?)
  }

  /** `export_existing_lockfiles`: in order, export each `uv.lock` with
      `uv export` (its outcome is `exports[i]`), refuse any pylock file,
      and keep the rest. */
  method ExportExistingLockfiles(workdir: string, deps: seq<DependencyFile>, exports: seq<Result<(), ToolError>>)
    returns (r: Result<seq<DependencyFile>, DepsError>)
    requires |exports| == |deps|
    ensures r.Ok? <==> forall i :: 0 <= i < |deps| ==> !StopsExport(deps[i], exports[i])
    ensures r.Ok? ==> |r.value| == |deps| && forall i :: 0 <= i < |deps| ==> r.value[i] == Exported(deps[i], workdir, i)
    ensures r.Err? ==>
      exists i :: 0 <= i < |deps| && StopsExport(deps[i], exports[i])
        && (forall j :: 0 <= j < i ==> !StopsExport(deps[j], exports[j]))
        && r.error == (if deps[i].kind.PyLock? then PyLockUnsupported else ExportFailed(exports[i].error))
  {
    var out := deps;
    for i := 0 to |deps|
      invariant |out| == |deps|
      invariant forall j :: 0 <= j < i ==> !StopsExport(deps[j], exports[j]) && out[j] == Exported(deps[j], workdir, j)
      invariant forall j :: i <= j < |deps| ==> out[j] == deps[j]
    {
      match deps[i].kind
      case UvLock =>
        if exports[i].Err? {
          return Err(ExportFailed(exports[i].error));
        }
        out := out[i := DependencyFile(Requirements, ExportPath(workdir, i))];
      case PyLock =>
        return Err(PyLockUnsupported);
      case _ =>
    }
    r := Ok(out);
  }

  /** After a successful export no lockfile is left: every file is a
      project file or a requirements file. */
  lemma ExportLeavesNoLockfile(workdir: string, deps: seq<DependencyFile>, exports: seq<Result<(), ToolError>>, i: nat)
    requires |exports| == |deps| && i < |deps|
    requires forall j :: 0 <= j < |deps| ==> !StopsExport(deps[j], exports[j])
    ensures !Exported(deps[i], workdir, i).kind.UvLock? && !Exported(deps[i], workdir, i).kind.PyLock?
  {
    assert !StopsExport(deps[i], exports[i]);
  }

  // ---------------------------------------------------------------------
  // The `uv pip compile` command line

  /** The setup.py rule: `setup.py` is ignored when there are other
      dependency files, since running it usually needs its dependencies. */
  function KeptFiles(deps: seq<DependencyFile>): (kept: seq<DependencyFile>)
    ensures forall f :: f in kept ==> f in deps && (f.kind.SetupPy? ==> |deps| == 1)
    ensures forall f :: f in deps && (!f.kind.SetupPy? || |deps| == 1) ==> f in kept
  {
    KeepIf(deps, |deps| == 1)
  }

  function KeepIf(deps: seq<DependencyFile>, keepSetup: bool): (kept: seq<DependencyFile>)
    ensures forall f :: f in kept <==> f in deps && (!f.kind.SetupPy? || keepSetup)
    ensures |kept| <= |deps|
  {
    if |deps| == 0 then []
    else
      (if !deps[0].kind.SetupPy? || keepSetup then [deps[0]] else []) + KeepIf(deps[1..], keepSetup)
  }

  /** A flag before each value: `[flag, v0, flag, v1, ...]`. */
  function FlagPairs(flag: string, values: seq<string>): (args: seq<string>)
    ensures |args| == 2 * |values|
  {
    if |values| == 0 then [] else [flag, values[0]] + FlagPairs(flag, values[1..])
  }

  /** The `i`-th pair is the flag and the `i`-th value. */
  lemma {:induction false} FlagPairsAt(flag: string, values: seq<string>, i: nat)
    requires i < |values|
    ensures FlagPairs(flag, values)[2 * i] == flag && FlagPairs(flag, values)[2 * i + 1] == values[i]
  {
    if i > 0 {
      FlagPairsAt(flag, values[1..], i - 1);
      assert FlagPairs(flag, values)[2 * i] == FlagPairs(flag, values[1..])[2 * (i - 1)];
      assert FlagPairs(flag, values)[2 * i + 1] == FlagPairs(flag, values[1..])[2 * (i - 1) + 1];
    }
  }

  /** The values back from the pairs: every second argument. */
  function PairedValues(args: seq<string>): seq<string>
    requires |args| % 2 == 0
  {
    if |args| == 0 then [] else [args[1]] + PairedValues(args[2..])
  }

  /** The flag pairs are read back exactly. */
  lemma {:induction false} FlagPairsRoundTrip(flag: string, values: seq<string>)
    ensures PairedValues(FlagPairs(flag, values)) == values
  {
    if |values| > 0 {
      assert FlagPairs(flag, values)[2..] == FlagPairs(flag, values[1..]);
      FlagPairsRoundTrip(flag, values[1..]);
    }
  }

  /** The dependency groups of the kept `pyproject.toml` files, in order. */
  function Groups(kept: seq<DependencyFile>): seq<string> {
    if |kept| == 0 then []
    else (if kept[0].kind.PyProject? then kept[0].kind.groups else []) + Groups(kept[1..])
  }

  /** The paths of the kept files, in order. */
  function Paths(kept: seq<DependencyFile>): (ps: seq<string>)
    ensures |ps| == |kept| && forall i :: 0 <= i < |kept| ==> ps[i] == kept[i].path
  {
    seq(|kept|, i requires 0 <= i < |kept| => kept[i].path)
  }

  predicate AnySupportsExtras(kept: seq<DependencyFile>) {
    exists f :: f in kept && SupportsExtras(f.kind)
  }

  /** The leading arguments: the subcommand, `--all-extras` when some kept
      file supports extras, the fixed flags and the lockfile path. */
  function FixedArgs(kept: seq<DependencyFile>, lockfile: string): (args: seq<string>)
    ensures |args| == (if AnySupportsExtras(kept) then 7 else 6)
    ensures args[..2] == ["pip", "compile"] && args[|args| - 1] == lockfile
    ensures args[2] == "--all-extras" <==> AnySupportsExtras(kept)
  {
    (if AnySupportsExtras(kept) then ["pip", "compile", "--all-extras"] else ["pip", "compile"])
      + ["--generate-hashes", "--universal", "--output-file", lockfile]
  }

  /** The flag pairs, in block order: groups, denied packages, wheel
      repositories. */
  function FlagArgs(kept: seq<DependencyFile>, opts: ResolveOpts): (args: seq<string>)
    ensures var g := 2 * |Groups(kept)|;
      var d := 2 * |opts.denylistedPackages|;
      && |args| == g + d + 2 * |opts.additionalWheelRepos|
      && args[..g] == FlagPairs("--group", Groups(kept))
      && args[g..g + d] == FlagPairs("--no-emit-package", opts.denylistedPackages)
      && args[g + d..] == FlagPairs("--find-links", opts.additionalWheelRepos)
  {
    var a := FlagPairs("--group", Groups(kept));
    var b := FlagPairs("--no-emit-package", opts.denylistedPackages);
    var c := FlagPairs("--find-links", opts.additionalWheelRepos);
    assert (a + b + c)[..|a|] == a;
    assert (a + b + c)[|a|..|a| + |b|] == b;
    assert (a + b + c)[|a| + |b|..] == c;
    a + b + c
  }

  /** The arguments of `uv` in `compile_pylock` for the kept files: the
      leading arguments, the flag pairs, then `--` and the files' paths. */
  function CompileArgs(kept: seq<DependencyFile>, opts: ResolveOpts, lockfile: string): (args: seq<string>)
    ensures var f := |FixedArgs(kept, lockfile)|;
      var m := f + |FlagArgs(kept, opts)|;
      && |args| == m + 1 + |kept|
      && args[..f] == FixedArgs(kept, lockfile)
      && args[f..m] == FlagArgs(kept, opts)
      && args[m] == "--"
      && args[m + 1..] == Paths(kept)
  {
    var fixed := FixedArgs(kept, lockfile);
    var flags := FlagArgs(kept, opts);
    var paths := Paths(kept);
    SliceConcat(fixed, flags, "--", paths);
    fixed + flags + ["--"] + paths
  }

  /** `--all-extras` is passed exactly when a kept file supports extras,
      and `setup.py` files reach the command line only as the sole file. */
  lemma CompileArgsExtras(deps: seq<DependencyFile>, opts: ResolveOpts, lockfile: string)
    ensures CompileArgs(KeptFiles(deps), opts, lockfile)[2] == "--all-extras" <==>
      exists f :: f in deps && SupportsExtras(f.kind) && (!f.kind.SetupPy? || |deps| == 1)
  {
    var kept := KeptFiles(deps);
    assert CompileArgs(kept, opts, lockfile)[2] == FixedArgs(kept, lockfile)[2];
  }

  /** The part of `compile_pylock` before `uv` runs: discover, export,
      then assemble the command line; the lockfile goes to
      `pylock.toml` in the work directory. */
  method PlanCompile(workdir: string, entries: seq<Result<DepEntry, string>>,
                     exports: seq<Result<(), ToolError>>, opts: ResolveOpts)
    returns (r: Result<seq<string>, DepsError>)
    ensures Discover(entries).Err? ==> r == Err(Io(Discover(entries).error))
    ensures r.Ok? ==> Discover(entries).Ok?
    ensures Discover(entries).Ok? && |exports| == |Discover(entries).value| ==>
      (r.Ok? <==> forall i :: 0 <= i < |exports| ==> !StopsExport(Discover(entries).value[i], exports[i]))
    ensures r.Ok? ==> r.value == CompileArgs(KeptFiles(ExportedAll(Discover(entries).value, workdir)), opts, workdir + "/pylock.toml")
    ensures Discover(entries).Ok? && |exports| == |Discover(entries).value| && r.Err? ==>
      var deps := Discover(entries).value;
      exists i :: 0 <= i < |deps| && StopsExport(deps[i], exports[i])
        && (forall j :: 0 <= j < i ==> !StopsExport(deps[j], exports[j]))
        && r.error == (if deps[i].kind.PyLock? then PyLockUnsupported else ExportFailed(exports[i].error))
  {
    var found := Discover(entries);
    if found.Err? {
      return Err(Io(found.error));
    }
    if |exports| != |found.value| {
      return Err(Io("lockfile exports do not line up with the discovered files"));
    }
    var exported := ExportExistingLockfiles(workdir, found.value, exports);
    if exported.Err? {
      return Err(exported.error);
    }
    assert exported.value == ExportedAll(found.value, workdir);
    r := Ok(CompileArgs(KeptFiles(exported.value), opts, workdir + "/pylock.toml"));
  }
}
