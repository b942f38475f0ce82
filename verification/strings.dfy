/** String operations shared by the Rust tool and the Python data scripts:
    code-point order (Rust's `str::cmp`), prefix/suffix tests, character
    replacement, splitting and joining, decimal digits and whitespace strip. */
module Strings {
  import opened Wrappers

  /** Rust's `std::cmp::Ordering`. */
  datatype Ordering = Less | Equal | Greater {
    /** Rust's `Ordering::then`: this ordering unless it is `Equal`. */
    function Then(other: Ordering): Ordering {
      if Equal? then other else this
    }
  }

  // ---------------------------------------------------------------------
  // Lexicographic order

  /** Lexicographic comparison by code point. Rust compares `str` by its
      UTF-8 bytes, and UTF-8 byte order agrees with code-point order. */
  function Cmp(a: string, b: string): (r: Ordering)
    ensures r == Equal <==> a == b
    decreases |a|
  {
    if |a| == 0 then (if |b| == 0 then Equal else Less)
    else if |b| == 0 then Greater
    else if a[0] < b[0] then Less
    else if a[0] > b[0] then Greater
    else
      assert a == [a[0]] + a[1..] && b == [b[0]] + b[1..];
      Cmp(a[1..], b[1..])
  }

  predicate Lt(a: string, b: string) { Cmp(a, b) == Less }

  predicate Le(a: string, b: string) { Cmp(a, b) != Greater }

  /** Swapping the arguments swaps `Less` and `Greater`. */
  lemma {:induction false} CmpFlip(a: string, b: string)
    ensures Cmp(a, b) == Less <==> Cmp(b, a) == Greater
    decreases |a|
  {
    if |a| > 0 && |b| > 0 && a[0] == b[0] {
      CmpFlip(a[1..], b[1..]);
    }
  }

  lemma {:induction false} LtTrans(a: string, b: string, c: string)
    requires Lt(a, b) && Lt(b, c)
    ensures Lt(a, c)
    decreases |a|
  {
    if |a| > 0 && |b| > 0 && |c| > 0 && a[0] == b[0] && b[0] == c[0] {
      LtTrans(a[1..], b[1..], c[1..]);
    }
  }

  lemma LeTrans(a: string, b: string, c: string)
    requires Le(a, b) && Le(b, c)
    ensures Le(a, c)
  {
    if a != b && b != c {
      LtTrans(a, b, c);
    }
  }

  lemma LeLtTrans(a: string, b: string, c: string)
    requires Le(a, b) && Lt(b, c)
    ensures Lt(a, c)
  {
    if a != b {
      LtTrans(a, b, c);
    }
  }

  lemma LtLeTrans(a: string, b: string, c: string)
    requires Lt(a, b) && Le(b, c)
    ensures Lt(a, c)
  {
    if b != c {
      LtTrans(a, b, c);
    }
  }

  /** `Le` is total: of two strings one is at most the other. */
  lemma LeTotal(a: string, b: string)
    ensures Le(a, b) || Le(b, a)
    ensures !Le(a, b) ==> Lt(b, a)
  {
    CmpFlip(a, b);
    CmpFlip(b, a);
  }

  /** A shared prefix does not change the comparison. */
  lemma {:induction false} CmpSharedPrefix(p: string, x: string, y: string)
    ensures Cmp(p + x, p + y) == Cmp(x, y)
    decreases |p|
  {
    if |p| > 0 {
      assert (p + x)[0] == p[0] && (p + y)[0] == p[0];
      assert (p + x)[1..] == p[1..] + x && (p + y)[1..] == p[1..] + y;
      CmpSharedPrefix(p[1..], x, y);
    } else {
      assert p + x == x && p + y == y;
    }
  }

  /** `Lt` and `Le` of the same pair exclude each other in reverse. */
  lemma LtNotLe(a: string, b: string)
    requires Lt(a, b)
    ensures !Le(b, a)
  {
    CmpFlip(a, b);
  }

  // ---------------------------------------------------------------------
  // Prefixes, suffixes and single-character replacement

  predicate StartsWith(s: string, prefix: string) {
    |prefix| <= |s| && s[..|prefix|] == prefix
  }

  predicate EndsWith(s: string, suffix: string) {
    |suffix| <= |s| && s[|s| - |suffix|..] == suffix
  }

  /** A string that differs from `prefix` at some position within both
      does not start with it. */
  lemma DiffersAt(s: string, prefix: string, i: nat)
    requires i < |s| && i < |prefix| && s[i] != prefix[i]
    ensures !StartsWith(s, prefix) && s != prefix
  {
    if |prefix| <= |s| {
      assert s[..|prefix|][i] == s[i];
    }
  }

  lemma EndsWithConcat(a: string, suffix: string)
    ensures EndsWith(a + suffix, suffix)
  {
    assert (a + suffix)[|a|..] == suffix;
  }

  lemma StartsWithConcat(prefix: string, b: string)
    ensures StartsWith(prefix + b, prefix)
  {
    assert (prefix + b)[..|prefix|] == prefix;
  }

  /** If a prefix of `a` sorts before a prefix of `b` and is not itself a
      prefix of it, the two differ inside the prefixes, so `a` sorts before
      `b` whatever follows. */
  lemma {:induction false} LtExtend(pa: string, pb: string, a: string, b: string)
    requires StartsWith(a, pa) && StartsWith(b, pb)
    requires Lt(pa, pb) && !StartsWith(pb, pa)
    ensures Lt(a, b)
    decreases |pa|
  {
    assert |pa| > 0 && |pb| > 0 && |a| > 0 && |b| > 0 && a[0] == pa[0] && b[0] == pb[0];
    if pa[0] == pb[0] {
      assert StartsWith(a[1..], pa[1..]) && StartsWith(b[1..], pb[1..]);
      assert pa == [pa[0]] + pa[1..];
      assert |pa| <= |pb| ==> pb[..|pa|] == [pb[0]] + pb[1..][..|pa| - 1];
      LtExtend(pa[1..], pb[1..], a[1..], b[1..]);
    }
  }

  /** Rust's `str::replace` and Python's `str.replace` with a one-character
      pattern and a one-character replacement. */
  function ReplaceChar(s: string, from: char, to: char): (r: string)
    ensures |r| == |s|
    ensures forall i :: 0 <= i < |s| && s[i] != from ==> r[i] == s[i]
    ensures forall i :: 0 <= i < |s| && s[i] == from ==> r[i] == to
    ensures from != to ==> from !in r
  {
    seq(|s|, i requires 0 <= i < |s| => if s[i] == from then to else s[i])
  }

  // ---------------------------------------------------------------------
  // Searching for a character

  /** Index of the first occurrence of `c`, if any. */
  function IndexOf(s: string, c: char): (r: Option<nat>)
    ensures r.None? <==> c !in s
    ensures r.Some? ==> r.value < |s| && s[r.value] == c && c !in s[..r.value]
  {
    if |s| == 0 then None
    else if s[0] == c then Some(0)
    else
      match IndexOf(s[1..], c)
      case None => None
      case Some(i) =>
        assert s[..i + 1] == [s[0]] + s[1..][..i];
        Some(i + 1)
  }

  /** Index of the last occurrence of `c`, if any (Rust's `rfind`). */
  function LastIndexOf(s: string, c: char): (r: Option<nat>)
    ensures r.None? <==> c !in s
    ensures r.Some? ==> r.value < |s| && s[r.value] == c && c !in s[r.value + 1..]
    decreases |s|
  {
    if |s| == 0 then None
    else if s[|s| - 1] == c then Some(|s| - 1)
    else
      assert s == s[..|s| - 1] + [s[|s| - 1]];
      match LastIndexOf(s[..|s| - 1], c)
      case None => None
      case Some(i) =>
        assert s[i + 1..] == s[..|s| - 1][i + 1..] + [s[|s| - 1]];
        Some(i)
  }

  /** Rust's `rsplit_once` with a one-character delimiter: the text before
      and after the last occurrence of `c`. */
  function RSplitOnce(s: string, c: char): (r: Option<(string, string)>)
    ensures r.None? <==> c !in s
    ensures r.Some? ==> s == r.value.0 + [c] + r.value.1 && c !in r.value.1
  {
    match LastIndexOf(s, c)
    case None => None
    case Some(i) =>
      assert s == s[..i] + [c] + s[i + 1..];
      Some((s[..i], s[i + 1..]))
  }

  /** Splitting at the last `c` recovers the parts when the tail has no `c`. */
  lemma RSplitOnceJoin(a: string, c: char, b: string)
    requires c !in b
    ensures RSplitOnce(a + [c] + b, c) == Some((a, b))
  {
    var s := a + [c] + b;
    var i := LastIndexOf(s, c).value;
    assert s[|a|] == c;
    assert s[|a| + 1..] == b;
    assert s[..i] == a;
    assert s[i + 1..] == b;
  }

  // ---------------------------------------------------------------------
  // Splitting and joining on a single character

  /** Python's `str.split(sep)` and Rust's `str::split` with a one-character
      separator: every field, empty ones included. */
  function Split(s: string, c: char): (r: seq<string>)
    ensures |r| >= 1
    ensures forall k :: 0 <= k < |r| ==> c !in r[k]
    decreases |s|
  {
    match IndexOf(s, c)
    case None => [s]
    case Some(i) => [s[..i]] + Split(s[i + 1..], c)
  }

  /** Python's `sep.join(parts)` with a one-character separator. */
  function Join(parts: seq<string>, c: char): string
  {
    if |parts| == 0 then ""
    else if |parts| == 1 then parts[0]
    else parts[0] + [c] + Join(parts[1..], c)
  }

  /** Splitting what was joined gives back the parts, provided none of
      them contains the separator. */
  lemma {:induction false} SplitJoin(parts: seq<string>, c: char)
    requires |parts| >= 1
    requires forall k :: 0 <= k < |parts| ==> c !in parts[k]
    ensures Split(Join(parts, c), c) == parts
    decreases |parts|
  {
    if |parts| > 1 {
      var s := Join(parts, c);
      var rest := Join(parts[1..], c);
      assert s == parts[0] + [c] + rest;
      assert s[|parts[0]|] == c;
      var i := IndexOf(s, c).value;
      assert s[..|parts[0]|] == parts[0];
      assert s[..i] == parts[0];
      assert s[i + 1..] == rest;
      SplitJoin(parts[1..], c);
    }
  }

  /** The parts of a concatenation of four sequences, the third a single
      element, are recovered by slicing. */
  lemma SliceConcat<T>(a: seq<T>, b: seq<T>, x: T, d: seq<T>)
    ensures var s := a + b + [x] + d;
      && s[..|a|] == a
      && s[|a|..|a| + |b|] == b
      && s[|a| + |b|] == x
      && s[|a| + |b| + 1..] == d
  {
    var s := a + b + [x] + d;
    assert s[..|a|] == a;
    assert s[|a|..|a| + |b|] == b;
    assert s[|a| + |b| + 1..] == d;
  }

  /** Joining the fields of a split gives back the string. */
  lemma {:induction false} JoinSplit(s: string, c: char)
    ensures Join(Split(s, c), c) == s
    decreases |s|
  {
    var r := IndexOf(s, c);
    if r.Some? {
      var i := r.value;
      var rest := Split(s[i + 1..], c);
      var parts := [s[..i]] + rest;
      assert Split(s, c) == parts;
      assert parts[0] == s[..i] && parts[1..] == rest && |parts| > 1;
      assert Join(parts, c) == s[..i] + [c] + Join(rest, c);
      JoinSplit(s[i + 1..], c);
      assert s == s[..i] + [c] + s[i + 1..];
    } else {
      assert Split(s, c) == [s];
    }
  }

  /** Python's `str.split(sep, maxsplit=m)` with a one-character separator:
      at most `m` splits, the remainder kept whole in the last field. */
  function SplitMax(s: string, c: char, m: nat): (r: seq<string>)
    ensures 1 <= |r| <= m + 1
    ensures |r| < m + 1 ==> c !in r[|r| - 1]
    ensures forall k :: 0 <= k < |r| - 1 ==> c !in r[k]
    decreases |s|
  {
    if m == 0 then [s]
    else
      match IndexOf(s, c)
      case None => [s]
      case Some(i) => [s[..i]] + SplitMax(s[i + 1..], c, m - 1)
  }

  /** A first field free of the separator comes off first. */
  lemma SplitMaxFirst(a: string, c: char, rest: string, m: nat)
    requires c !in a && m > 0
    ensures SplitMax(a + [c] + rest, c, m) == [a] + SplitMax(rest, c, m - 1)
  {
    var s := a + [c] + rest;
    assert s[|a|] == c;
    assert s[..|a|] == a;
    var i := IndexOf(s, c).value;
    assert s[..i] == a;
    assert s[i + 1..] == rest;
  }

  /** The same for an unbounded split. */
  lemma SplitFirst(a: string, c: char, rest: string)
    requires c !in a
    ensures Split(a + [c] + rest, c) == [a] + Split(rest, c)
  {
    var s := a + [c] + rest;
    assert s[|a|] == c;
    assert s[..|a|] == a;
    var i := IndexOf(s, c).value;
    assert s[..i] == a;
    assert s[i + 1..] == rest;
  }

  // ---------------------------------------------------------------------
  // Splitting on a multi-character separator

  /** `sep` occurs in `s` starting at index `k`. */
  predicate OccursAt(s: string, sep: string, k: nat) {
    k + |sep| <= |s| && s[k..k + |sep|] == sep
  }

  /** First index at or after `from` where `sep` occurs. */
  function FindSub(s: string, sep: string, from: nat): (r: Option<nat>)
    requires from <= |s|
    ensures r.Some? ==> from <= r.value && OccursAt(s, sep, r.value)
    ensures r.Some? ==> forall k: nat :: from <= k < r.value ==> !OccursAt(s, sep, k)
    ensures r.None? ==> forall k: nat :: from <= k ==> !OccursAt(s, sep, k)
    decreases |s| - from
  {
    if from + |sep| > |s| then None
    else if s[from..from + |sep|] == sep then Some(from)
    else FindSub(s, sep, from + 1)
  }

  /** Python's `str.split(sep)` with a non-empty, possibly multi-character,
      separator: occurrences are taken left to right without overlap. */
  function SplitOn(s: string, sep: string): (r: seq<string>)
    requires |sep| > 0
    ensures |r| >= 1
    decreases |s|
  {
    match FindSub(s, sep, 0)
    case None => [s]
    case Some(i) => [s[..i]] + SplitOn(s[i + |sep|..], sep)
  }

  /** A first field free of the separator's first character comes off
      first. */
  lemma SplitOnFirst(a: string, sep: string, b: string)
    requires |sep| > 0 && sep[0] !in a
    ensures SplitOn(a + sep + b, sep) == [a] + SplitOn(b, sep)
  {
    var s := a + sep + b;
    assert s[|a|..|a| + |sep|] == sep;
    assert OccursAt(s, sep, |a|);
    var i := FindSub(s, sep, 0).value;
    assert s[i] == sep[0];
    assert s[..i] == a;
    assert s[i + |sep|..] == b;
  }

  /** Text without the separator's first character is a single field. */
  lemma SplitOnNone(b: string, sep: string)
    requires |sep| > 0 && sep[0] !in b
    ensures SplitOn(b, sep) == [b]
  {
  }

  /** Python's `sep.join(parts)` with a multi-character separator. */
  function JoinOn(parts: seq<string>, sep: string): string
  {
    if |parts| == 0 then ""
    else if |parts| == 1 then parts[0]
    else parts[0] + sep + JoinOn(parts[1..], sep)
  }

  /** Splitting what was joined gives back the parts, provided none of
      them contains the separator's first character. */
  lemma {:induction false} SplitOnJoinOn(parts: seq<string>, sep: string)
    requires |parts| >= 1 && |sep| > 0
    requires forall k :: 0 <= k < |parts| ==> sep[0] !in parts[k]
    ensures SplitOn(JoinOn(parts, sep), sep) == parts
    decreases |parts|
  {
    if |parts| == 1 {
      SplitOnNone(parts[0], sep);
    } else {
      SplitOnFirst(parts[0], sep, JoinOn(parts[1..], sep));
      SplitOnJoinOn(parts[1..], sep);
    }
  }

  /** Python's `s[:-1]`: everything but the last character, and `""` for `""`. */
  function DropLast(s: string): (r: string)
    ensures |s| > 0 ==> s == r + [s[|s| - 1]]
    ensures |s| == 0 ==> r == ""
  {
    if |s| == 0 then "" else s[..|s| - 1]
  }

  /** Python's `s[1:]`: everything but the first character, and `""` for `""`. */
  function DropFirst(s: string): (r: string)
    ensures |s| > 0 ==> s == [s[0]] + r
    ensures |s| == 0 ==> r == ""
  {
    if |s| == 0 then "" else s[1..]
  }

  // ---------------------------------------------------------------------
  // Decimal digits

  predicate IsDigit(c: char) { '0' <= c <= '9' }

  predicate AllDigits(s: string) {
    forall k :: 0 <= k < |s| ==> IsDigit(s[k])
  }

  lemma AllDigitsConcat(a: string, b: string)
    requires AllDigits(a) && AllDigits(b)
    ensures AllDigits(a + b)
  {
    forall k | 0 <= k < |a + b| ensures IsDigit((a + b)[k]) {
      if k >= |a| {
        assert (a + b)[k] == b[k - |a|];
      }
    }
  }

  function DigitValue(c: char): nat
    requires IsDigit(c)
  {
    (c as int - '0' as int) as nat
  }

  function DigitChar(d: nat): (c: char)
    requires d < 10
    ensures IsDigit(c) && DigitValue(c) == d
  {
    ('0' as int + d) as char
  }

  /** Value of a string of decimal digits, most significant first. */
  function DigitsValue(s: string): nat
    requires AllDigits(s)
    decreases |s|
  {
    if |s| == 0 then 0
    else DigitsValue(s[..|s| - 1]) * 10 + DigitValue(s[|s| - 1])
  }

  /** Python's `int(s)` and Rust's `str::parse::<u64>` restricted to strings of
      ASCII digits: `None` for the empty string or any other character. */
  function ParseNat(s: string): (r: Option<nat>)
    ensures r.Some? <==> |s| > 0 && AllDigits(s)
  {
    if |s| > 0 && AllDigits(s) then Some(DigitsValue(s)) else None
  }

  /** Decimal rendering without leading zeros (Python's `str(n)`, Rust's `{}`). */
  function NatToDecimal(n: nat): (r: string)
    ensures |r| >= 1 && AllDigits(r)
    ensures |r| > 1 ==> r[0] != '0'
  {
    if n < 10 then [DigitChar(n)]
    else NatToDecimal(n / 10) + [DigitChar(n % 10)]
  }

  /** Parsing the decimal rendering gives back the number. */
  lemma {:induction false} NatToDecimalValue(n: nat)
    ensures DigitsValue(NatToDecimal(n)) == n
  {
    if n >= 10 {
      var s := NatToDecimal(n);
      assert s[..|s| - 1] == NatToDecimal(n / 10);
      NatToDecimalValue(n / 10);
    }
  }

  lemma ParseNatToDecimal(n: nat)
    ensures ParseNat(NatToDecimal(n)) == Some(n)
  {
    NatToDecimalValue(n);
  }

  function Zeros(k: nat): (r: string)
    ensures |r| == k && AllDigits(r)
    ensures forall i :: 0 <= i < k ==> r[i] == '0'
  {
    seq(k, i => '0')
  }

  /** Python's `{n:0wd}` for a non-negative `n`: zero-padded to width `w`. */
  function ZeroPadded(n: nat, w: nat): (r: string)
    ensures AllDigits(r) && |r| >= w && |r| >= 1
  {
    var d := NatToDecimal(n);
    if |d| >= w then d else Zeros(w - |d|) + d
  }

  /** Leading zeros do not change a digit string's value. */
  lemma {:induction false} LeadingZerosValue(k: nat, s: string)
    requires AllDigits(s)
    ensures DigitsValue(Zeros(k) + s) == DigitsValue(s)
    decreases |s|
  {
    var t := Zeros(k) + s;
    if |s| == 0 {
      assert t == Zeros(k);
      ZerosValue(k);
    } else {
      assert t[..|t| - 1] == Zeros(k) + s[..|s| - 1];
      LeadingZerosValue(k, s[..|s| - 1]);
    }
  }

  lemma {:induction false} ZerosValue(k: nat)
    ensures DigitsValue(Zeros(k)) == 0
  {
    if k > 0 {
      assert Zeros(k)[..k - 1] == Zeros(k - 1);
      ZerosValue(k - 1);
    }
  }

  /** Parsing the zero-padded rendering gives back the number. */
  lemma ZeroPaddedValue(n: nat, w: nat)
    ensures DigitsValue(ZeroPadded(n, w)) == n
  {
    var d := NatToDecimal(n);
    NatToDecimalValue(n);
    if |d| < w {
      assert ZeroPadded(n, w) == Zeros(w - |d|) + d;
      LeadingZerosValue(w - |d|, d);
    } else {
      assert ZeroPadded(n, w) == d;
    }
  }

  // ---------------------------------------------------------------------
  // Whitespace

  /** Python's `str.isspace` for one character. */
  predicate IsPySpace(c: char) {
    || c == ' ' || ('\t' <= c <= '\r') || ('\U{1C}' <= c <= '\U{1F}')
    || c == '\U{85}' || c == '\U{A0}' || c == '\U{1680}'
    || ('\U{2000}' <= c <= '\U{200A}') || c == '\U{2028}' || c == '\U{2029}'
    || c == '\U{202F}' || c == '\U{205F}' || c == '\U{3000}'
  }

  /** Whitespace stripped by Python's `bytes.strip()`. */
  predicate IsAsciiSpace(c: char) {
    c == ' ' || ('\t' <= c <= '\r')
  }

  function TrimStart(s: string, ws: char -> bool): (r: string)
    ensures |r| <= |s| && r == s[|s| - |r|..]
    ensures |r| > 0 ==> !ws(r[0])
    decreases |s|
  {
    if |s| > 0 && ws(s[0]) then TrimStart(s[1..], ws) else s
  }

  function TrimEnd(s: string, ws: char -> bool): (r: string)
    ensures |r| <= |s| && r == s[..|r|]
    ensures |r| > 0 ==> !ws(r[|r| - 1])
    decreases |s|
  {
    if |s| > 0 && ws(s[|s| - 1]) then TrimEnd(s[..|s| - 1], ws) else s
  }

  /** Python's `str.strip()`. */
  function Strip(s: string): string {
    TrimEnd(TrimStart(s, IsPySpace), IsPySpace)
  }

  /** Python's `bytes.strip()`, on bytes viewed as characters. */
  function StripAscii(s: string): string {
    TrimEnd(TrimStart(s, IsAsciiSpace), IsAsciiSpace)
  }

  predicate NoPySpace(s: string) {
    forall k :: 0 <= k < |s| ==> !IsPySpace(s[k])
  }

  /** Stripping whitespace-free text followed by whitespace gives the text. */
  lemma StripTrailing(s: string, tail: string)
    requires NoPySpace(s)
    requires forall k :: 0 <= k < |tail| ==> IsPySpace(tail[k])
    ensures Strip(s + tail) == s
  {
    if |s| > 0 {
      assert TrimStart(s + tail, IsPySpace) == s + tail;
    } else {
      TrimStartAllSpace(tail);
    }
    TrimEndSpaceTail(s, tail);
  }

  /** Stripping text whose first and last characters are not whitespace,
      followed by whitespace, gives the text. */
  lemma StripEnds(s: string, tail: string)
    requires |s| > 0 && !IsPySpace(s[0]) && !IsPySpace(s[|s| - 1])
    requires forall k :: 0 <= k < |tail| ==> IsPySpace(tail[k])
    ensures Strip(s + tail) == s
  {
    assert TrimStart(s + tail, IsPySpace) == s + tail;
    TrimEndEndsTail(s, tail);
  }

  lemma {:induction false} TrimEndEndsTail(s: string, tail: string)
    requires |s| > 0 && !IsPySpace(s[|s| - 1])
    requires forall k :: 0 <= k < |tail| ==> IsPySpace(tail[k])
    ensures TrimEnd(s + tail, IsPySpace) == s
    decreases |tail|
  {
    if |tail| > 0 {
      assert (s + tail)[..|s + tail| - 1] == s + tail[..|tail| - 1];
      TrimEndEndsTail(s, tail[..|tail| - 1]);
    } else {
      assert s + tail == s;
    }
  }

  lemma {:induction false} TrimStartAllSpace(t: string)
    requires forall k :: 0 <= k < |t| ==> IsPySpace(t[k])
    ensures TrimStart(t, IsPySpace) == ""
    decreases |t|
  {
    if |t| > 0 {
      TrimStartAllSpace(t[1..]);
    }
  }

  lemma {:induction false} TrimEndSpaceTail(s: string, tail: string)
    requires NoPySpace(s)
    requires forall k :: 0 <= k < |tail| ==> IsPySpace(tail[k])
    ensures TrimEnd(s + tail, IsPySpace) == s
    decreases |tail|
  {
    if |tail| > 0 {
      assert (s + tail)[..|s + tail| - 1] == s + tail[..|tail| - 1];
      TrimEndSpaceTail(s, tail[..|tail| - 1]);
    } else {
      assert s + tail == s;
    }
  }
}
