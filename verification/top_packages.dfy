/** Choosing one archive per top PyPI package (data/pypi/get-top-packages.py):
    wheel file names are split into tags, every tag becomes a numeric sort
    key modelled on uv's platform-tag ranking, and the archive with the
    smallest key wins. Python raising an exception is `None` here; the
    download of the package index is an input. */
module TopPackages {
  import opened Wrappers
  import opened Strings
  import opened Collate

  // ---------------------------------------------------------------------
  // Rank constants (lower sorts first)

  const BDIST: int := 0
  const SDIST: int := 1

  const P_ANY: int := 0
  const P_MANYLINUX: int := 1
  const P_MANYLINUX1: int := 2
  const P_MANYLINUX2010: int := 3
  const P_MANYLINUX2014: int := 4
  const P_LINUX: int := 5
  const P_MUSLLINUX: int := 6
  const P_MACOS: int := 7
  const P_WIN_AMD64: int := 8
  const P_WIN32: int := 9
  const P_WIN_ARM64: int := 10
  const P_WIN_IA64: int := 11
  const P_OTHER: int := 12

  const ARCH_X86_64: int := 0
  const ARCH_X86: int := 1
  const ARCH_AARCH64: int := 2
  const ARCH_OTHER: int := 3

  const BF_UNIVERSAL: int := 0
  const BF_UNIVERSAL2: int := 1
  const BF_X86_64: int := 2
  const BF_ARM64: int := 3
  const BF_I386: int := 4
  const BF_INTEL: int := 5
  const BF_OTHER: int := 6

  const ABI_NONE: int := 0
  const ABI_ABI3: int := 1
  const ABI_CPYTHON: int := 2
  const ABI_PYPY: int := 3
  const ABI_OTHER: int := 4

  const L_NONE: int := 0
  const L_PYTHON: int := 1
  const L_CPYTHON: int := 2
  const L_PYPY: int := 3
  const L_OTHER: int := 4

  /** Python's `True`/`False` inside a tuple compare as 1/0. */
  function BoolRank(b: bool): int { if b then 1 else 0 }

  // ---------------------------------------------------------------------
  // Tag parsers

  /** `parse_arch`. */
  function ParseArch(tag: string): (r: int)
    ensures r == ARCH_X86_64 <==> tag == "x86_64" || tag == "amd64"
    ensures r == ARCH_X86 <==> tag == "x86" || tag == "i386" || tag == "i686"
    ensures r == ARCH_AARCH64 <==> tag == "aarch64" || tag == "arm64"
    ensures r == ARCH_OTHER <==> tag !in {"x86_64", "amd64", "x86", "i386", "i686", "aarch64", "arm64"}
  {
    if tag == "x86_64" || tag == "amd64" then ARCH_X86_64
    else if tag == "x86" || tag == "i386" || tag == "i686" then ARCH_X86
    else if tag == "aarch64" || tag == "arm64" then ARCH_AARCH64
    else ARCH_OTHER
  }

  /** `parse_binary_format`: the six macOS binary formats. */
  function ParseBinaryFormat(tag: string): (r: int)
    ensures r == BF_ARM64 <==> tag == "arm64"
    ensures r == BF_I386 <==> tag == "i386"
    ensures r == BF_INTEL <==> tag == "intel"
    ensures r == BF_UNIVERSAL <==> tag == "universal"
    ensures r == BF_UNIVERSAL2 <==> tag == "universal2"
    ensures r == BF_X86_64 <==> tag == "x86_64"
    ensures r == BF_OTHER <==> tag !in {"arm64", "i386", "intel", "universal", "universal2", "x86_64"}
  {
    if tag == "arm64" then BF_ARM64
    else if tag == "i386" then BF_I386
    else if tag == "intel" then BF_INTEL
    else if tag == "universal" then BF_UNIVERSAL
    else if tag == "universal2" then BF_UNIVERSAL2
    else if tag == "x86_64" then BF_X86_64
    else BF_OTHER
  }

  /** `MAJOR_MINOR_REST` as the platform parsers read it: two integers and
      the remainder (which may itself hold underscores). `None` when
      Python's `int` or the third index would raise. */
  function VersionedTail(s: string): (r: Option<(nat, nat, string)>)
  {
    var attrs := SplitMax(s, '_', 2);
    if |attrs| < 3 || ParseNat(attrs[0]).None? || ParseNat(attrs[1]).None? then None
    else Some((ParseNat(attrs[0]).value, ParseNat(attrs[1]).value, attrs[2]))
  }

  /** A versioned tail renders back: major, minor and the remainder. */
  lemma VersionedTailOf(major: nat, minor: nat, tail: string)
    ensures VersionedTail(NatToDecimal(major) + "_" + NatToDecimal(minor) + "_" + tail) == Some((major, minor, tail))
  {
    var a := NatToDecimal(major);
    var b := NatToDecimal(minor);
    assert forall k :: 0 <= k < |a| ==> a[k] != '_';
    assert forall k :: 0 <= k < |b| ==> b[k] != '_';
    SplitTwoFields(a, b, tail);
    ParseNatToDecimal(major);
    ParseNatToDecimal(minor);
  }

  /** Two underscore-free fields and the rest. */
  lemma SplitTwoFields(a: string, b: string, tail: string)
    requires '_' !in a && '_' !in b
    ensures SplitMax(a + "_" + b + "_" + tail, '_', 2) == [a, b, tail]
  {
    assert a + "_" + b + "_" + tail == a + ['_'] + (b + ['_'] + tail);
    SplitMaxFirst(a, '_', b + ['_'] + tail, 2);
    SplitMaxFirst(b, '_', tail, 1);
  }

  /** The platform tags compared by exact name, in the order tested. */
  function ExactPlatform(tag: string): Option<int> {
    if tag == "any" then Some(P_ANY)
    else if tag == "win32" then Some(P_WIN32)
    else if tag == "win_amd64" then Some(P_WIN_AMD64)
    else if tag == "win_arm64" then Some(P_WIN_ARM64)
    else if tag == "win_ia64" then Some(P_WIN_IA64)
    else None
  }

  /** The tag starts with one of the family prefixes the script tests. */
  predicate HasFamilyPrefix(tag: string) {
    || StartsWith(tag, "manylinux_") || StartsWith(tag, "manylinux1_")
    || StartsWith(tag, "manylinux2010_") || StartsWith(tag, "manylinux2014_")
    || StartsWith(tag, "linux_") || StartsWith(tag, "musllinux_") || StartsWith(tag, "macosx_")
  }

  /** `parse_platform_tag`: exact names give a one-element key, the
      `manylinux_`/`musllinux_` families give their rank, architecture and
      negated glibc/musl version (newer first), the legacy manylinux and
      `linux_` families give rank and architecture, and `macosx_` gives
      rank, negated version and binary format. Anything else is
      `(P_OTHER,)`. */
  function ParsePlatformTag(tag: string): (r: Option<seq<int>>)
    ensures ExactPlatform(tag).Some? ==> r == Some([ExactPlatform(tag).value])
    ensures r.Some? ==> |r.value| >= 1 && P_ANY <= r.value[0] <= P_OTHER
    ensures r.None? ==>
      (StartsWith(tag, "manylinux_") || StartsWith(tag, "musllinux_") || StartsWith(tag, "macosx_"))
    ensures ExactPlatform(tag).None? && !HasFamilyPrefix(tag) ==> r == Some([P_OTHER])
  {
    if ExactPlatform(tag).Some? then Some([ExactPlatform(tag).value])
    else if StartsWith(tag, "manylinux_") then
      match VersionedTail(tag[|"manylinux_"|..])
      case None => None
      case Some((major, minor, arch)) => Some([P_MANYLINUX, ParseArch(arch), -(major as int), -(minor as int)])
    else if StartsWith(tag, "manylinux1_") then Some([P_MANYLINUX1, ParseArch(tag[|"manylinux1_"|..])])
    else if StartsWith(tag, "manylinux2010_") then Some([P_MANYLINUX2010, ParseArch(tag[|"manylinux2010_"|..])])
    else if StartsWith(tag, "manylinux2014_") then Some([P_MANYLINUX2014, ParseArch(tag[|"manylinux2014_"|..])])
    else if StartsWith(tag, "linux_") then Some([P_LINUX, ParseArch(tag[|"linux_"|..])])
    else if StartsWith(tag, "musllinux_") then
      match VersionedTail(tag[|"musllinux_"|..])
      case None => None
      case Some((major, minor, arch)) => Some([P_MUSLLINUX, ParseArch(arch), -(major as int), -(minor as int)])
    else if StartsWith(tag, "macosx_") then
      match VersionedTail(tag[|"macosx_"|..])
      case None => None
      case Some((major, minor, bf)) => Some([P_MACOS, -(major as int), -(minor as int), ParseBinaryFormat(bf)])
    else Some([P_OTHER])
  }

  /** A tag behind a prefix none of the exact names shares. */
  lemma PrefixedTag(prefix: string, tail: string)
    requires |prefix| >= 10
    ensures StartsWith(prefix + tail, prefix) && (prefix + tail)[|prefix|..] == tail
    ensures ExactPlatform(prefix + tail).None?
  {
    StartsWithConcat(prefix, tail);
    assert |prefix + tail| >= 10;
  }

  lemma ManylinuxFamily(tail: string, major: nat, minor: nat, arch: string)
    requires VersionedTail(tail) == Some((major, minor, arch))
    ensures ParsePlatformTag("manylinux_" + tail) == Some([P_MANYLINUX, ParseArch(arch), -(major as int), -(minor as int)])
  {
    PrefixedTag("manylinux_", tail);
  }

  /** `manylinux1_arch` ranks by architecture alone. */
  lemma Manylinux1Tag(arch: string)
    ensures ParsePlatformTag("manylinux1_" + arch) == Some([P_MANYLINUX1, ParseArch(arch)])
  {
    var tag := "manylinux1_" + arch;
    PrefixedTag("manylinux1_", arch);
    DiffersAt(tag, "manylinux_", 9);
  }

  /** `manylinux2010_arch` likewise. */
  lemma Manylinux2010Tag(arch: string)
    ensures ParsePlatformTag("manylinux2010_" + arch) == Some([P_MANYLINUX2010, ParseArch(arch)])
  {
    var tag := "manylinux2010_" + arch;
    PrefixedTag("manylinux2010_", arch);
    DiffersAt(tag, "manylinux_", 9);
    DiffersAt(tag, "manylinux1_", 10);
  }

  /** `manylinux2014_arch` likewise. */
  lemma Manylinux2014Tag(arch: string)
    ensures ParsePlatformTag("manylinux2014_" + arch) == Some([P_MANYLINUX2014, ParseArch(arch)])
  {
    var tag := "manylinux2014_" + arch;
    PrefixedTag("manylinux2014_", arch);
    DiffersAt(tag, "manylinux_", 9);
    DiffersAt(tag, "manylinux1_", 10);
    DiffersAt(tag, "manylinux2010_", 12);
  }

  /** `linux_arch` likewise. */
  lemma LinuxTag(arch: string)
    ensures ParsePlatformTag("linux_" + arch) == Some([P_LINUX, ParseArch(arch)])
  {
    var tag := "linux_" + arch;
    StartsWithConcat("linux_", arch);
    assert tag[|"linux_"|..] == arch;
    assert tag[0] == 'l';
    DiffersAt(tag, "any", 0);
    DiffersAt(tag, "win32", 0);
    DiffersAt(tag, "win_amd64", 0);
    DiffersAt(tag, "win_arm64", 0);
    DiffersAt(tag, "win_ia64", 0);
    DiffersAt(tag, "manylinux_", 0);
    DiffersAt(tag, "manylinux1_", 0);
    DiffersAt(tag, "manylinux2010_", 0);
    DiffersAt(tag, "manylinux2014_", 0);
  }

  /** `manylinux_M_m_arch` ranks by architecture, then newest glibc first. */
  lemma ManylinuxTag(major: nat, minor: nat, arch: string)
    ensures ParsePlatformTag("manylinux_" + (NatToDecimal(major) + "_" + NatToDecimal(minor) + "_" + arch))
      == Some([P_MANYLINUX, ParseArch(arch), -(major as int), -(minor as int)])
  {
    var tail := NatToDecimal(major) + "_" + NatToDecimal(minor) + "_" + arch;
    VersionedTailOf(major, minor, arch);
    ManylinuxFamily(tail, major, minor, arch);
  }

  lemma MusllinuxFamily(tail: string, major: nat, minor: nat, arch: string)
    requires VersionedTail(tail) == Some((major, minor, arch))
    ensures ParsePlatformTag("musllinux_" + tail) == Some([P_MUSLLINUX, ParseArch(arch), -(major as int), -(minor as int)])
  {
    PrefixedTag("musllinux_", tail);
    MusllinuxOnly("musllinux_" + tail);
  }

  /** Of the prefixes tested before it, a `musllinux_` tag has none. */
  lemma MusllinuxOnly(tag: string)
    requires StartsWith(tag, "musllinux_")
    ensures !StartsWith(tag, "manylinux_") && !StartsWith(tag, "manylinux1_")
    ensures !StartsWith(tag, "manylinux2010_") && !StartsWith(tag, "manylinux2014_")
    ensures !StartsWith(tag, "linux_")
  {
    assert tag[0] == 'm' && tag[1] == 'u';
    DiffersAt(tag, "manylinux_", 1);
    DiffersAt(tag, "manylinux1_", 1);
    DiffersAt(tag, "manylinux2010_", 1);
    DiffersAt(tag, "manylinux2014_", 1);
    DiffersAt(tag, "linux_", 0);
  }

  /** `musllinux_M_m_arch` likewise. */
  lemma MusllinuxTag(major: nat, minor: nat, arch: string)
    ensures ParsePlatformTag("musllinux_" + (NatToDecimal(major) + "_" + NatToDecimal(minor) + "_" + arch))
      == Some([P_MUSLLINUX, ParseArch(arch), -(major as int), -(minor as int)])
  {
    var tail := NatToDecimal(major) + "_" + NatToDecimal(minor) + "_" + arch;
    VersionedTailOf(major, minor, arch);
    MusllinuxFamily(tail, major, minor, arch);
  }

  lemma MacosFamily(tail: string, major: nat, minor: nat, bf: string)
    requires VersionedTail(tail) == Some((major, minor, bf))
    ensures ParsePlatformTag("macosx_" + tail) == Some([P_MACOS, -(major as int), -(minor as int), ParseBinaryFormat(bf)])
  {
    var tag := "macosx_" + tail;
    StartsWithConcat("macosx_", tail);
    assert tag[|"macosx_"|..] == tail;
    MacosOnly(tag);
    MacosDispatch(tag);
  }

  /** Of the prefixes tested, a `macosx_` tag has only that one. */
  lemma MacosOnly(tag: string)
    requires StartsWith(tag, "macosx_")
    ensures ExactPlatform(tag).None?
    ensures !StartsWith(tag, "manylinux_") && !StartsWith(tag, "manylinux1_")
    ensures !StartsWith(tag, "manylinux2010_") && !StartsWith(tag, "manylinux2014_")
    ensures !StartsWith(tag, "linux_") && !StartsWith(tag, "musllinux_")
  {
    assert tag[0] == 'm' && tag[1] == 'a' && tag[2] == 'c';
    DiffersAt(tag, "any", 0);
    DiffersAt(tag, "win32", 0);
    DiffersAt(tag, "win_amd64", 0);
    DiffersAt(tag, "win_arm64", 0);
    DiffersAt(tag, "win_ia64", 0);
    DiffersAt(tag, "manylinux_", 2);
    DiffersAt(tag, "manylinux1_", 2);
    DiffersAt(tag, "manylinux2010_", 2);
    DiffersAt(tag, "manylinux2014_", 2);
    DiffersAt(tag, "linux_", 0);
    DiffersAt(tag, "musllinux_", 1);
  }

  /** A tag that only the `macosx_` test accepts is read by that branch. */
  lemma MacosDispatch(tag: string)
    requires ExactPlatform(tag).None? && StartsWith(tag, "macosx_")
    requires !StartsWith(tag, "manylinux_") && !StartsWith(tag, "manylinux1_")
    requires !StartsWith(tag, "manylinux2010_") && !StartsWith(tag, "manylinux2014_")
    requires !StartsWith(tag, "linux_") && !StartsWith(tag, "musllinux_")
    ensures ParsePlatformTag(tag) ==
      match VersionedTail(tag[|"macosx_"|..])
      case None => None
      case Some((major, minor, bf)) => Some([P_MACOS, -(major as int), -(minor as int), ParseBinaryFormat(bf)])
  {
  }

  /** `macosx_M_m_format` ranks newest macOS first, then by binary format. */
  lemma MacosTag(major: nat, minor: nat, format: string)
    ensures ParsePlatformTag("macosx_" + (NatToDecimal(major) + "_" + NatToDecimal(minor) + "_" + format))
      == Some([P_MACOS, -(major as int), -(minor as int), ParseBinaryFormat(format)])
  {
    var tail := NatToDecimal(major) + "_" + NatToDecimal(minor) + "_" + format;
    VersionedTailOf(major, minor, format);
    MacosFamily(tail, major, minor, format);
  }

  /** A newer manylinux glibc sorts before an older one on the same
      architecture. */
  lemma NewerGlibcFirst(major: nat, minor: nat, major': nat, minor': nat, arch: string)
    requires major > major' || (major == major' && minor > minor')
    ensures var p := ParsePlatformTag("manylinux_" + (NatToDecimal(major) + "_" + NatToDecimal(minor) + "_" + arch));
      var q := ParsePlatformTag("manylinux_" + (NatToDecimal(major') + "_" + NatToDecimal(minor') + "_" + arch));
      p.Some? && q.Some? && SeqLt(p.value, q.value)
  {
    var a := [P_MANYLINUX, ParseArch(arch), -(major as int), -(minor as int)];
    var b := [P_MANYLINUX, ParseArch(arch), -(major' as int), -(minor' as int)];
    assert SeqLt(a, b) by {
      var a2, b2 := [-(major as int), -(minor as int)], [-(major' as int), -(minor' as int)];
      assert a[1..][1..] == a2 && b[1..][1..] == b2;
      assert SeqCmp(a, b) == SeqCmp(a[1..], b[1..]) == SeqCmp(a2, b2);
      assert a2[1..] == [-(minor as int)] && b2[1..] == [-(minor' as int)];
      if major == major' {
        assert SeqCmp(a2, b2) == SeqCmp(a2[1..], b2[1..]);
      }
    }
    ManylinuxTag(major, minor, arch);
    ManylinuxTag(major', minor', arch);
  }

  /** Python's `"".join(filter(str.isdigit, s))` on ASCII digits. */
  function Digits(s: string): (r: string)
    ensures AllDigits(r) && |r| <= |s|
  {
    if |s| == 0 then ""
    else (if IsDigit(s[0]) then [s[0]] else "") + Digits(s[1..])
  }

  lemma {:induction false} DigitsOfDigits(s: string, tail: string)
    requires AllDigits(s) && forall k :: 0 <= k < |tail| ==> !IsDigit(tail[k])
    ensures Digits(s + tail) == s
    decreases |s| + |tail|
  {
    if |s| > 0 {
      assert (s + tail)[0] == s[0];
      assert (s + tail)[1..] == s[1..] + tail;
      DigitsOfDigits(s[1..], tail);
    } else if |tail| > 0 {
      assert s + tail == tail;
      assert (s + tail)[1..] == s + tail[1..];
      DigitsOfDigits(s, tail[1..]);
    } else {
      assert s + tail == "";
    }
  }

  /** `parse_abi_tag`: `none` and `abi3` rank first; `cpXY[t]` gives
      CPython with the negated version and whether the GIL is kept. */
  function ParseAbiTag(tag: string): (r: Option<seq<int>>)
    ensures tag == "none" ==> r == Some([ABI_NONE])
    ensures tag == "abi3" ==> r == Some([ABI_ABI3])
    ensures r.None? ==> StartsWith(tag, "cp") && |Digits(tag[2..])| < 2
    ensures r.Some? ==> |r.value| >= 1 && ABI_NONE <= r.value[0] <= ABI_OTHER
  {
    if tag == "none" then Some([ABI_NONE])
    else if tag == "abi3" then Some([ABI_ABI3])
    else if StartsWith(tag, "cp") then
      var version := Digits(tag[2..]);
      if |version| < 2 then None
      else Some([ABI_CPYTHON, -(DigitValue(version[0]) as int), -(DigitsValue(version[1..]) as int), BoolRank(!EndsWith(tag, "t"))])
    else if StartsWith(tag, "pypy") then Some([ABI_PYPY])
    else Some([ABI_OTHER])
  }

  /** `cpXY` and the free-threaded `cpXYt`: negated major and minor, and
      the GIL flag false exactly for the `t` form. */
  lemma CpythonAbiTag(major: nat, minor: nat, freeThreaded: bool)
    requires major < 10
    ensures ParseAbiTag("cp" + (NatToDecimal(major) + NatToDecimal(minor) + (if freeThreaded then "t" else "")))
      == Some([ABI_CPYTHON, -(major as int), -(minor as int), BoolRank(!freeThreaded)])
  {
    var v := NatToDecimal(major) + NatToDecimal(minor);
    var t := if freeThreaded then "t" else "";
    DecimalPair(major, minor);
    assert Digits(v + t) == v by {
      DigitsOfDigits(v, t);
    }
    assert EndsWith(v + t, "t") <==> freeThreaded by {
      if !freeThreaded {
        assert (v + t)[|v + t| - 1] == v[|v| - 1];
      }
    }
    CpythonFamily(v + t, v, major, minor, freeThreaded);
  }

  /** A one-digit major version followed by the minor version reads back
      as those two numbers. */
  lemma DecimalPair(major: nat, minor: nat)
    requires major < 10
    ensures var v := NatToDecimal(major) + NatToDecimal(minor);
      && |v| >= 2 && AllDigits(v)
      && DigitValue(v[0]) == major && DigitsValue(v[1..]) == minor
  {
    var v := NatToDecimal(major) + NatToDecimal(minor);
    AllDigitsConcat(NatToDecimal(major), NatToDecimal(minor));
    assert NatToDecimal(major) == [DigitChar(major)];
    assert v[1..] == NatToDecimal(minor);
    NatToDecimalValue(minor);
  }

  /** A `cp` ABI tag with at least two digits after the prefix. */
  lemma CpythonFamily(rest: string, version: string, major: nat, minor: nat, freeThreaded: bool)
    requires Digits(rest) == version && |version| >= 2
    requires DigitValue(version[0]) == major && DigitsValue(version[1..]) == minor
    requires EndsWith(rest, "t") == freeThreaded
    ensures ParseAbiTag("cp" + rest) == Some([ABI_CPYTHON, -(major as int), -(minor as int), BoolRank(!freeThreaded)])
  {
    var tag := "cp" + rest;
    StartsWithConcat("cp", rest);
    assert tag[2..] == rest;
    assert tag[1] == 'p';
    assert tag != "none" && tag != "abi3";
    assert EndsWith(tag, "t") <==> EndsWith(rest, "t") by {
      assert |rest| >= 2;
      assert tag[|tag| - 1..] == rest[|rest| - 1..];
    }
  }

  /** `pyX`, `cpXY`, `ppXY` as `(family, -major, -minor)`. */
  function ParseVersionedLanguage(family: int, version: string, minorOptional: bool): Option<seq<int>> {
    if |version| == 0 || !IsDigit(version[0]) then None
    else if |version| == 1 && minorOptional then Some([family, -(DigitValue(version[0]) as int), 0])
    else if ParseNat(version[1..]).None? then None
    else Some([family, -(DigitValue(version[0]) as int), -(ParseNat(version[1..]).value as int)])
  }

  /** `parse_language_tag`: the major version is the single character
      after the prefix; only the `py` form may leave the minor version out
      (then it is 0). */
  function ParseLanguageTag(tag: string): (r: Option<seq<int>>)
    ensures tag == "none" ==> r == Some([L_NONE])
    ensures r.Some? ==> |r.value| >= 1 && L_NONE <= r.value[0] <= L_OTHER
    ensures r.Some? && r.value[0] == L_OTHER <==>
      tag != "none" && !StartsWith(tag, "py") && !StartsWith(tag, "cp") && !StartsWith(tag, "pp")
  {
    if tag == "none" then Some([L_NONE])
    else if StartsWith(tag, "py") then ParseVersionedLanguage(L_PYTHON, tag[2..], true)
    else if StartsWith(tag, "cp") then ParseVersionedLanguage(L_CPYTHON, tag[2..], false)
    else if StartsWith(tag, "pp") then ParseVersionedLanguage(L_PYPY, tag[2..], false)
    else Some([L_OTHER])
  }

  /** `pyX` gets minor version 0; `pyXY` keeps its minor version. */
  lemma PythonLanguageTag(major: nat, minor: nat)
    requires major < 10
    ensures ParseLanguageTag("py" + NatToDecimal(major)) == Some([L_PYTHON, -(major as int), 0])
    ensures ParseLanguageTag("py" + NatToDecimal(major) + NatToDecimal(minor)) == Some([L_PYTHON, -(major as int), -(minor as int)])
  {
    PythonMajorOnly(major);
    PythonMajorMinor(major, minor);
  }

  lemma PythonMajorOnly(major: nat)
    requires major < 10
    ensures ParseLanguageTag("py" + NatToDecimal(major)) == Some([L_PYTHON, -(major as int), 0])
  {
    var d := NatToDecimal(major);
    assert d == [DigitChar(major)];
    PythonDispatch(d);
  }

  lemma PythonMajorMinor(major: nat, minor: nat)
    requires major < 10
    ensures ParseLanguageTag("py" + NatToDecimal(major) + NatToDecimal(minor)) == Some([L_PYTHON, -(major as int), -(minor as int)])
  {
    var d := NatToDecimal(major);
    var m := NatToDecimal(minor);
    PythonDispatch(d + m);
    assert "py" + d + m == "py" + (d + m);
    VersionedMajorMinor(L_PYTHON, major, minor, true);
  }

  /** A one-digit major version followed by a minor version. */
  lemma VersionedMajorMinor(family: int, major: nat, minor: nat, minorOptional: bool)
    requires major < 10
    ensures ParseVersionedLanguage(family, NatToDecimal(major) + NatToDecimal(minor), minorOptional)
      == Some([family, -(major as int), -(minor as int)])
  {
    var d := NatToDecimal(major);
    var m := NatToDecimal(minor);
    assert d == [DigitChar(major)];
    assert (d + m)[1..] == m;
    ParseNatToDecimal(minor);
  }

  /** A tag starting `py` is read by the Python branch. */
  lemma PythonDispatch(version: string)
    ensures ParseLanguageTag("py" + version) == ParseVersionedLanguage(L_PYTHON, version, true)
  {
    var tag := "py" + version;
    StartsWithConcat("py", version);
    assert tag[0] == 'p' && tag[2..] == version;
    DiffersAt(tag, "none", 0);
  }

  // ---------------------------------------------------------------------
  // Sort keys and their order

  /** An archive's sort key: `(SDIST,)` for a source archive, and
      `(BDIST, platform, language, abi, build_tag)` for a wheel. */
  datatype SortKey = Sdist | Bdist(platform: seq<int>, lang: seq<int>, abi: seq<int>, build: string)

  /** Python's tuple order on integer tuples: the first differing element
      decides, and a proper prefix comes first. */
  function SeqCmp(a: seq<int>, b: seq<int>): (r: Ordering)
    ensures r == Equal <==> a == b
  {
    if |a| == 0 then (if |b| == 0 then Equal else Less)
    else if |b| == 0 then Greater
    else if a[0] < b[0] then Less
    else if a[0] > b[0] then Greater
    else
      assert a == [a[0]] + a[1..] && b == [b[0]] + b[1..];
      SeqCmp(a[1..], b[1..])
  }

  predicate SeqLt(a: seq<int>, b: seq<int>) { SeqCmp(a, b) == Less }

  lemma {:induction false} SeqCmpFlip(a: seq<int>, b: seq<int>)
    ensures SeqCmp(a, b) == Less <==> SeqCmp(b, a) == Greater
  {
    if |a| > 0 && |b| > 0 && a[0] == b[0] {
      SeqCmpFlip(a[1..], b[1..]);
    }
  }

  lemma {:induction false} SeqLtTrans(a: seq<int>, b: seq<int>, c: seq<int>)
    requires SeqLt(a, b) && SeqLt(b, c)
    ensures SeqLt(a, c)
  {
    if |a| > 0 && |b| > 0 && |c| > 0 && a[0] == b[0] && b[0] == c[0] {
      SeqLtTrans(a[1..], b[1..], c[1..]);
    }
  }

  /** The order of two sort keys as Python compares the tuples: every
      wheel sorts before every source archive. */
  function KeyCmp(a: SortKey, b: SortKey): (r: Ordering)
    ensures r == Equal <==> a == b
    ensures a.Bdist? && b.Sdist? ==> r == Less
  {
    match (a, b)
    case (Sdist, Sdist) => Equal
    case (Sdist, Bdist(_, _, _, _)) => Greater
    case (Bdist(_, _, _, _), Sdist) => Less
    case (Bdist(pa, la, aa, ba), Bdist(pb, lb, ab, bb)) =>
      SeqCmp(pa, pb).Then(SeqCmp(la, lb)).Then(SeqCmp(aa, ab)).Then(Cmp(ba, bb))
  }

  predicate KeyLt(a: SortKey, b: SortKey) { KeyCmp(a, b) == Less }

  lemma KeyCmpFlip(a: SortKey, b: SortKey)
    ensures KeyLt(a, b) <==> KeyCmp(b, a) == Greater
  {
    if a.Bdist? && b.Bdist? {
      SeqCmpFlip(a.platform, b.platform);
      SeqCmpFlip(b.platform, a.platform);
      SeqCmpFlip(a.lang, b.lang);
      SeqCmpFlip(b.lang, a.lang);
      SeqCmpFlip(a.abi, b.abi);
      SeqCmpFlip(b.abi, a.abi);
      CmpFlip(a.build, b.build);
      CmpFlip(b.build, a.build);
    }
  }

  /** The first component where three keys' comparisons are not all
      equal decides; the lexicographic composition stays transitive. */
  lemma KeyLtTrans(a: SortKey, b: SortKey, c: SortKey)
    requires KeyLt(a, b) && KeyLt(b, c)
    ensures KeyLt(a, c)
  {
    if a.Bdist? && b.Bdist? && c.Bdist? {
      if SeqLt(a.platform, b.platform) && SeqLt(b.platform, c.platform) {
        SeqLtTrans(a.platform, b.platform, c.platform);
      } else if a.platform == b.platform && b.platform == c.platform {
        if SeqLt(a.lang, b.lang) && SeqLt(b.lang, c.lang) {
          SeqLtTrans(a.lang, b.lang, c.lang);
        } else if a.lang == b.lang && b.lang == c.lang {
          if SeqLt(a.abi, b.abi) && SeqLt(b.abi, c.abi) {
            SeqLtTrans(a.abi, b.abi, c.abi);
          } else if a.abi == b.abi && b.abi == c.abi {
            LtTrans(a.build, b.build, c.build);
          }
        }
      }
    }
  }

  // ---------------------------------------------------------------------
  // Candidate archives of a package

  /** A file listed in the package's simple index. */
  datatype IndexFile = IndexFile(filename: string, url: string)

  /** An archive `fetch_files` yields. */
  datatype Candidate = Candidate(key: SortKey, url: string, version: string, filename: string)

  /** The source-archive extensions, in the order tested. */
  function SdistStem(filename: string): (r: Option<string>)
    ensures r.Some? ==> exists ext :: ext in [".tar.gz", ".tar.bz2", ".tgz", ".zip"] && filename == r.value + ext
    ensures r.None? <==>
      !EndsWith(filename, ".tar.gz") && !EndsWith(filename, ".tar.bz2")
      && !EndsWith(filename, ".tgz") && !EndsWith(filename, ".zip")
  {
    if EndsWith(filename, ".tar.gz") then
      assert filename == filename[..|filename| - 7] + ".tar.gz";
      Some(filename[..|filename| - 7])
    else if EndsWith(filename, ".tar.bz2") then
      assert filename == filename[..|filename| - 8] + ".tar.bz2";
      Some(filename[..|filename| - 8])
    else if EndsWith(filename, ".tgz") then
      assert filename == filename[..|filename| - 4] + ".tgz";
      Some(filename[..|filename| - 4])
    else if EndsWith(filename, ".zip") then
      assert filename == filename[..|filename| - 4] + ".zip";
      Some(filename[..|filename| - 4])
    else None
  }

  /** The fields of a wheel name (`name-version[-build]-lang-abi-platform`)
      once the version is the latest: `None` when Python would raise (too
      few fields, or neither 5 nor 6 of them). */
  datatype WheelTags = WheelTags(build: string, langs: string, abis: string, platforms: string)

  function WheelFields(parts: seq<string>): (r: Option<WheelTags>)
    ensures r.Some? <==> |parts| == 5 || |parts| == 6
    ensures |parts| == 5 ==> r == Some(WheelTags("", parts[2], parts[3], parts[4]))
    ensures |parts| == 6 ==> r == Some(WheelTags(parts[2], parts[3], parts[4], parts[5]))
  {
    if |parts| == 5 then Some(WheelTags("", parts[2], parts[3], parts[4]))
    else if |parts| == 6 then Some(WheelTags(parts[2], parts[3], parts[4], parts[5]))
    else None
  }

  /** Parse every tag of a dotted group; `None` if any raises. */
  function ParseAll(tags: seq<string>, parse: string -> Option<seq<int>>): (r: Option<seq<seq<int>>>)
    ensures r.Some? <==> forall k :: 0 <= k < |tags| ==> parse(tags[k]).Some?
    ensures r.Some? ==> |r.value| == |tags| && forall k :: 0 <= k < |tags| ==> r.value[k] == parse(tags[k]).value
  {
    if forall k :: 0 <= k < |tags| ==> parse(tags[k]).Some? then
      Some(seq(|tags|, k requires 0 <= k < |tags| => parse(tags[k]).value))
    else None
  }

  lemma ParseAllSingle(tag: string, parse: string -> Option<seq<int>>)
    requires parse(tag).Some?
    ensures ParseAll([tag], parse) == Some([parse(tag).value])
  {
    var tags := [tag];
    assert forall k :: 0 <= k < |tags| ==> tags[k] == tag;
    var r := ParseAll(tags, parse);
    assert r.Some? && |r.value| == 1 && r.value[0] == parse(tag).value;
    assert r.value == [parse(tag).value];
  }

  /** The keys for one language and one ABI, over the platforms. */
  function PlatformKeys(lang: seq<int>, abi: seq<int>, plats: seq<seq<int>>, build: string): (r: seq<SortKey>)
    ensures |r| == |plats|
    ensures forall k :: 0 <= k < |plats| ==> r[k] == Bdist(plats[k], lang, abi, build)
  {
    seq(|plats|, k requires 0 <= k < |plats| => Bdist(plats[k], lang, abi, build))
  }

  /** The keys for one language, over ABIs then platforms. */
  function AbiKeys(lang: seq<int>, abis: seq<seq<int>>, plats: seq<seq<int>>, build: string): (r: seq<SortKey>)
    ensures |r| == |abis| * |plats|
    ensures forall key :: key in r <==>
      exists j, k :: 0 <= j < |abis| && 0 <= k < |plats| && key == Bdist(plats[k], lang, abis[j], build)
  {
    if |abis| == 0 then []
    else
      var head := PlatformKeys(lang, abis[0], plats, build);
      var rest := AbiKeys(lang, abis[1..], plats, build);
      assert |abis| * |plats| == |plats| + (|abis| - 1) * |plats|;
      assert forall key :: key in rest <==>
        exists j, k :: 1 <= j < |abis| && 0 <= k < |plats| && key == Bdist(plats[k], lang, abis[j], build) by {
        forall key | key in rest
          ensures exists j, k :: 1 <= j < |abis| && 0 <= k < |plats| && key == Bdist(plats[k], lang, abis[j], build)
        {
          var j, k :| 0 <= j < |abis[1..]| && 0 <= k < |plats| && key == Bdist(plats[k], lang, abis[1..][j], build);
          assert abis[1..][j] == abis[j + 1];
        }
        forall key | exists j, k :: 1 <= j < |abis| && 0 <= k < |plats| && key == Bdist(plats[k], lang, abis[j], build)
          ensures key in rest
        {
          var j, k :| 1 <= j < |abis| && 0 <= k < |plats| && key == Bdist(plats[k], lang, abis[j], build);
          assert abis[j] == abis[1..][j - 1];
        }
      }
      head + rest
  }

  /** `fetch_files`'s triple loop: one key per element of the product of
      the dotted language, ABI and platform tags. */
  function ProductKeys(langs: seq<seq<int>>, abis: seq<seq<int>>, plats: seq<seq<int>>, build: string): (r: seq<SortKey>)
    ensures |r| == |langs| * (|abis| * |plats|)
    ensures forall key :: key in r <==>
      exists i, j, k :: 0 <= i < |langs| && 0 <= j < |abis| && 0 <= k < |plats|
        && key == Bdist(plats[k], langs[i], abis[j], build)
  {
    if |langs| == 0 then []
    else
      var head := AbiKeys(langs[0], abis, plats, build);
      var rest := ProductKeys(langs[1..], abis, plats, build);
      assert |langs| * (|abis| * |plats|) == |abis| * |plats| + (|langs| - 1) * (|abis| * |plats|);
      assert forall key :: key in rest <==>
        exists i, j, k :: 1 <= i < |langs| && 0 <= j < |abis| && 0 <= k < |plats|
          && key == Bdist(plats[k], langs[i], abis[j], build) by {
        forall key | key in rest
          ensures exists i, j, k ::
            1 <= i < |langs| && 0 <= j < |abis| && 0 <= k < |plats| && key == Bdist(plats[k], langs[i], abis[j], build)
        {
          var i, j, k :| 0 <= i < |langs[1..]| && 0 <= j < |abis| && 0 <= k < |plats|
            && key == Bdist(plats[k], langs[1..][i], abis[j], build);
          assert langs[1..][i] == langs[i + 1];
        }
        forall key | exists i, j, k ::
            1 <= i < |langs| && 0 <= j < |abis| && 0 <= k < |plats| && key == Bdist(plats[k], langs[i], abis[j], build)
          ensures key in rest
        {
          var i, j, k :| 1 <= i < |langs| && 0 <= j < |abis| && 0 <= k < |plats|
            && key == Bdist(plats[k], langs[i], abis[j], build);
          assert langs[i] == langs[1..][i - 1];
        }
      }
      head + rest
  }

  /** The keys of a wheel's tags, or `None` if a tag fails to parse. */
  function WheelKeys(tags: WheelTags): (r: Option<seq<SortKey>>)
    ensures r.Some? <==>
      ParseAll(Split(tags.langs, '.'), ParseLanguageTag).Some?
      && ParseAll(Split(tags.abis, '.'), ParseAbiTag).Some?
      && ParseAll(Split(tags.platforms, '.'), ParsePlatformTag).Some?
    ensures r.Some? ==>
      |r.value| == |Split(tags.langs, '.')| * (|Split(tags.abis, '.')| * |Split(tags.platforms, '.')|)
      && forall key :: key in r.value ==> key.Bdist? && key.build == tags.build
  {
    match (ParseAll(Split(tags.langs, '.'), ParseLanguageTag),
           ParseAll(Split(tags.abis, '.'), ParseAbiTag),
           ParseAll(Split(tags.platforms, '.'), ParsePlatformTag))
    case (Some(ls), Some(abs), Some(ps)) => Some(ProductKeys(ls, abs, ps, tags.build))
    case _ => None
  }

  /** What one index file contributes: nothing, some candidates, or an
      exception (`None`). */
  function FileCandidates(f: IndexFile, latest: string): (r: Option<seq<Candidate>>)
    ensures !EndsWith(f.filename, ".whl") ==>
      r.Some? && (|r.value| > 0 <==> SdistStem(f.filename).Some? && EndsWith(SdistStem(f.filename).value, "-" + latest))
    ensures !EndsWith(f.filename, ".whl") && r.Some? && |r.value| > 0 ==>
      r.value == [Candidate(Sdist, f.url, latest, f.filename)]
    ensures r.Some? ==> forall c :: c in r.value ==> c.url == f.url && c.filename == f.filename && c.version == latest
    ensures EndsWith(f.filename, ".whl") && r.Some? && |r.value| > 0 ==>
      var parts := Split(f.filename[..|f.filename| - 4], '-');
      |parts| >= 2 && parts[1] == latest && (|parts| == 5 || |parts| == 6)
  {
    if !EndsWith(f.filename, ".whl") then SdistCandidates(f, latest)
    else WheelCandidates(Split(f.filename[..|f.filename| - 4], '-'), f, latest)
  }

  /** The source-archive branch of `fetch_files`: one candidate for an
      archive of the latest version, none for any other file. */
  function SdistCandidates(f: IndexFile, latest: string): (r: Option<seq<Candidate>>)
    ensures r.Some?
    ensures |r.value| > 0 <==> SdistStem(f.filename).Some? && EndsWith(SdistStem(f.filename).value, "-" + latest)
    ensures |r.value| > 0 ==> r.value == [Candidate(Sdist, f.url, latest, f.filename)]
  {
    match SdistStem(f.filename)
    case None => Some([])
    case Some(stem) =>
      if EndsWith(stem, "-" + latest) then Some([Candidate(Sdist, f.url, latest, f.filename)]) else Some([])
  }

  /** The wheel branch of `fetch_files`, on the dash-separated fields of
      the name without `.whl`. */
  function WheelCandidates(parts: seq<string>, f: IndexFile, latest: string): (r: Option<seq<Candidate>>)
    ensures r.Some? ==> forall c :: c in r.value ==> c.url == f.url && c.filename == f.filename && c.version == latest
    ensures r.Some? && |r.value| > 0 ==> |parts| >= 2 && parts[1] == latest && (|parts| == 5 || |parts| == 6)
  {
    if |parts| < 2 then None
    else if parts[1] != latest then Some([])
    else
      match WheelFields(parts)
      case None => None
      case Some(tags) =>
        match WheelKeys(tags)
        case None => None
        case Some(keys) =>
          Some(seq(|keys|, k requires 0 <= k < |keys| => Candidate(keys[k], f.url, latest, f.filename)))
  }

  /** A wheel name with five fields yields, for the latest version, one
      candidate per tag combination. */
  lemma WheelOfLatest(name: string, latest: string, lang: string, abi: string, platform: string, url: string)
    requires '-' !in name && '-' !in latest && '-' !in lang && '-' !in abi && '-' !in platform
    requires '.' !in lang && '.' !in abi && '.' !in platform
    requires ParseLanguageTag(lang).Some? && ParseAbiTag(abi).Some? && ParsePlatformTag(platform).Some?
    ensures var filename := Join([name, latest, lang, abi, platform], '-') + ".whl";
      FileCandidates(IndexFile(filename, url), latest)
        == Some([Candidate(Bdist(ParsePlatformTag(platform).value, ParseLanguageTag(lang).value, ParseAbiTag(abi).value, ""),
                           url, latest, filename)])
  {
    var parts := [name, latest, lang, abi, platform];
    assert forall k :: 0 <= k < |parts| ==> '-' !in parts[k];
    WheelName(parts);
    WheelFile(IndexFile(Join(parts, '-') + ".whl", url), latest, parts);
  }

  /** Dash-free fields joined into a wheel name are read back. */
  lemma WheelName(parts: seq<string>)
    requires |parts| >= 1
    requires forall k :: 0 <= k < |parts| ==> '-' !in parts[k]
    ensures var filename := Join(parts, '-') + ".whl";
      EndsWith(filename, ".whl") && Split(filename[..|filename| - 4], '-') == parts
  {
    var stem := Join(parts, '-');
    var filename := stem + ".whl";
    EndsWithConcat(stem, ".whl");
    assert filename[..|filename| - 4] == stem;
    SplitJoin(parts, '-');
  }

  /** A five-field wheel name of the latest version whose tags are not
      dotted yields exactly one candidate. */
  lemma WheelFile(f: IndexFile, latest: string, parts: seq<string>)
    requires EndsWith(f.filename, ".whl") && Split(f.filename[..|f.filename| - 4], '-') == parts
    requires |parts| == 5 && parts[1] == latest
    requires '.' !in parts[2] && '.' !in parts[3] && '.' !in parts[4]
    requires ParseLanguageTag(parts[2]).Some? && ParseAbiTag(parts[3]).Some? && ParsePlatformTag(parts[4]).Some?
    ensures FileCandidates(f, latest)
      == Some([Candidate(Bdist(ParsePlatformTag(parts[4]).value, ParseLanguageTag(parts[2]).value, ParseAbiTag(parts[3]).value, ""),
                         f.url, latest, f.filename)])
  {
    WheelDispatch(f, latest);
    FiveFieldWheel(parts, f, latest);
  }

  /** A `.whl` file is read by the wheel branch. */
  lemma WheelDispatch(f: IndexFile, latest: string)
    requires EndsWith(f.filename, ".whl")
    ensures FileCandidates(f, latest) == WheelCandidates(Split(f.filename[..|f.filename| - 4], '-'), f, latest)
  {
  }

  lemma FiveFieldWheel(parts: seq<string>, f: IndexFile, latest: string)
    requires |parts| == 5 && parts[1] == latest
    requires '.' !in parts[2] && '.' !in parts[3] && '.' !in parts[4]
    requires ParseLanguageTag(parts[2]).Some? && ParseAbiTag(parts[3]).Some? && ParsePlatformTag(parts[4]).Some?
    ensures WheelCandidates(parts, f, latest)
      == Some([Candidate(Bdist(ParsePlatformTag(parts[4]).value, ParseLanguageTag(parts[2]).value, ParseAbiTag(parts[3]).value, ""),
                         f.url, latest, f.filename)])
  {
    var key := Bdist(ParsePlatformTag(parts[4]).value, ParseLanguageTag(parts[2]).value, ParseAbiTag(parts[3]).value, "");
    var tags := WheelTags("", parts[2], parts[3], parts[4]);
    assert WheelFields(parts) == Some(tags);
    SingleTagKeys(parts[2], parts[3], parts[4]);
    var keys := [key];
    assert seq(|keys|, k requires 0 <= k < |keys| => Candidate(keys[k], f.url, latest, f.filename))
      == [Candidate(key, f.url, latest, f.filename)];
  }

  /** Undotted tags give the one key of their combination. */
  lemma SingleTagKeys(lang: string, abi: string, platform: string)
    requires '.' !in lang && '.' !in abi && '.' !in platform
    requires ParseLanguageTag(lang).Some? && ParseAbiTag(abi).Some? && ParsePlatformTag(platform).Some?
    ensures WheelKeys(WheelTags("", lang, abi, platform))
      == Some([Bdist(ParsePlatformTag(platform).value, ParseLanguageTag(lang).value, ParseAbiTag(abi).value, "")])
  {
    assert Split(lang, '.') == [lang] && Split(abi, '.') == [abi] && Split(platform, '.') == [platform];
    ParseAllSingle(lang, ParseLanguageTag);
    ParseAllSingle(abi, ParseAbiTag);
    ParseAllSingle(platform, ParsePlatformTag);
    SingleProductKeys(ParseLanguageTag(lang).value, ParseAbiTag(abi).value, ParsePlatformTag(platform).value, "");
  }

  /** One language, one ABI and one platform give one key. */
  lemma SingleProductKeys(lang: seq<int>, abi: seq<int>, platform: seq<int>, build: string)
    ensures ProductKeys([lang], [abi], [platform], build) == [Bdist(platform, lang, abi, build)]
  {
    var ls, abs, ps := [lang], [abi], [platform];
    assert AbiKeys(lang, abs[1..], ps, build) == [];
    assert AbiKeys(lang, abs, ps, build) == [Bdist(platform, lang, abi, build)];
    assert ProductKeys(ls[1..], abs, ps, build) == [];
  }

  /** `fetch_files` over the index listing, in order; `None` if any file
      raises. */
  function FetchFiles(files: seq<IndexFile>, latest: string): (r: Option<seq<Candidate>>)
    ensures r.Some? <==> forall k :: 0 <= k < |files| ==> FileCandidates(files[k], latest).Some?
    ensures r.Some? ==> forall c :: c in r.value ==>
      exists k :: 0 <= k < |files| && c in FileCandidates(files[k], latest).value
    ensures r.Some? ==> forall k, c :: 0 <= k < |files| && c in FileCandidates(files[k], latest).value ==> c in r.value
  {
    ConcatAll(files, f => FileCandidates(f, latest))
  }

  // ---------------------------------------------------------------------
  // Choosing the best archive

  /** `sorted(candidates, key=sort_key)[0]`: the first candidate with the
      smallest key (Python's sort is stable). No candidate is an error. */
  method BestArchive(cands: seq<Candidate>) returns (r: Option<nat>)
    ensures r.None? <==> |cands| == 0
    ensures r.Some? ==>
      r.value < |cands|
      && (forall j :: 0 <= j < |cands| ==> !KeyLt(cands[j].key, cands[r.value].key))
      && (forall j :: 0 <= j < r.value ==> KeyLt(cands[r.value].key, cands[j].key))
    ensures r.Some? && (exists j :: 0 <= j < |cands| && cands[j].key.Bdist?) ==> cands[r.value].key.Bdist?
  {
    if |cands| == 0 {
      return None;
    }
    var best := 0;
    for i := 1 to |cands|
      invariant best < i
      invariant forall j :: 0 <= j < i ==> !KeyLt(cands[j].key, cands[best].key)
      invariant forall j :: 0 <= j < best ==> KeyLt(cands[best].key, cands[j].key)
    {
      if KeyLt(cands[i].key, cands[best].key) {
        forall j | 0 <= j < i
          ensures !KeyLt(cands[j].key, cands[i].key) && (j < i ==> KeyLt(cands[i].key, cands[j].key))
        {
          if KeyLt(cands[j].key, cands[i].key) {
            KeyLtTrans(cands[j].key, cands[i].key, cands[best].key);
          }
          KeyCmpFlip(cands[j].key, cands[best].key);
          KeyCmpFlip(cands[best].key, cands[j].key);
          if cands[j].key != cands[best].key {
            KeyLtTrans(cands[i].key, cands[best].key, cands[j].key);
          }
        }
        best := i;
      } else {
        forall j | 0 <= j < best
          ensures KeyLt(cands[best].key, cands[j].key)
        {
        }
      }
    }
    r := Some(best);
  }

  // ---------------------------------------------------------------------
  // Which packages are fetched

  /** Packages skipped because they no longer exist or have no usable
      archive. */
  const Blacklist: seq<string> := ["aaaaaaaaa", "git-python", "pyairports", "zhdate", "fsd", "pyrouge"]

  /** The packages still to fetch, in ranking order: neither already in
      the output file nor blacklisted. */
  function ToFetch(top: seq<string>, cached: set<string>): (r: seq<string>)
    ensures forall p :: p in r <==> p in top && p !in cached && p !in Blacklist
    ensures |r| <= |top|
  {
    if |top| == 0 then []
    else (if top[0] !in cached && top[0] !in Blacklist then [top[0]] else []) + ToFetch(top[1..], cached)
  }

  /** The positions of `top`, from `i` on, whose package is to be
      fetched, in increasing order. */
  function FetchPositions(top: seq<string>, cached: set<string>, i: nat): (idx: seq<nat>)
    requires i <= |top|
    ensures forall k :: 0 <= k < |idx| ==> i <= idx[k] < |top|
    ensures forall k, l :: 0 <= k < l < |idx| ==> idx[k] < idx[l]
    decreases |top| - i
  {
    if i == |top| then []
    else (if top[i] !in cached && top[i] !in Blacklist then [i] else []) + FetchPositions(top, cached, i + 1)
  }

  /** A position from `i` on is listed iff its package is to be fetched. */
  lemma {:induction false} FetchPositionsExact(top: seq<string>, cached: set<string>, i: nat)
    requires i <= |top|
    ensures forall j :: i <= j < |top| ==>
              (j in FetchPositions(top, cached, i) <==> top[j] !in cached && top[j] !in Blacklist)
    decreases |top| - i
  {
    if i < |top| {
      FetchPositionsExact(top, cached, i + 1);
    }
  }

  /** The packages to fetch keep the ranking order: the k-th one is the
      package at the k-th position, counting up, that is neither cached nor
      blacklisted. */
  lemma {:induction false} ToFetchKeepsOrder(top: seq<string>, cached: set<string>, i: nat)
    requires i <= |top|
    ensures |ToFetch(top[i..], cached)| == |FetchPositions(top, cached, i)|
    ensures forall k :: 0 <= k < |FetchPositions(top, cached, i)| ==>
              ToFetch(top[i..], cached)[k] == top[FetchPositions(top, cached, i)[k]]
    decreases |top| - i
  {
    if i < |top| {
      var r, idx := ToFetch(top[i..], cached), FetchPositions(top, cached, i);
      var rest, restIdx := ToFetch(top[i + 1..], cached), FetchPositions(top, cached, i + 1);
      assert top[i..][1..] == top[i + 1..];
      ToFetchKeepsOrder(top, cached, i + 1);
      if top[i] !in cached && top[i] !in Blacklist {
        assert r == [top[i]] + rest;
        assert idx == [i] + restIdx;
        forall k | 0 <= k < |idx| ensures r[k] == top[idx[k]] {
          if k > 0 {
            assert r[k] == rest[k - 1] && idx[k] == restIdx[k - 1];
          }
        }
      } else {
        assert r == rest;
        assert idx == restIdx;
      }
    }
  }
}
