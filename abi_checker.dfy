/** scripts/deb_abi_checker.py: the verdict engine of the ABI checker. The `abipkgdiff` exit status, its
    report text, the directory listings and the outcome of the `apt-get` calls are inputs; what remains
    is the decision procedure over them and the accumulation of per-package return codes. */
module AbiChecker {

  import opened Wrappers
  import opened Text
  import opened Collections
  import opened PyInt

  // ---------------------------------------------------------------------------------------------
  // Return codes (lines 43-48)
  // ---------------------------------------------------------------------------------------------

  const ReturnAbiNoDiff: int := 0
  const ReturnAbiCompatibleDiff: int := 1
  const ReturnAbiIncompatibleDiff: int := 2
  const ReturnAbiStrippedPackage: int := 4
  const ReturnPpaPackageNotFound: int := 8
  const ReturnPpaError: int := 16

  // ---------------------------------------------------------------------------------------------
  // Version strings (lines 665-730)
  // ---------------------------------------------------------------------------------------------

  predicate AllDigits(s: string)
  {
    forall i :: 0 <= i < |s| ==> IsDigit(s[i])
  }

  /** Length of the leading run of ASCII digits: what a greedy `\d+` consumes. */
  function DigitRun(s: string): (n: nat)
    ensures n <= |s| && AllDigits(s[..n])
    ensures n < |s| ==> !IsDigit(s[n])
  {
    if s == [] || !IsDigit(s[0]) then 0
    else
      var n := DigitRun(s[1..]);
      assert s[..n + 1] == [s[0]] + s[1..][..n];
      n + 1
  }

  /** The decimal value of a digit string, as `int()` reads it (leading zeros allowed). */
  function DecimalValue(s: string): nat
    requires AllDigits(s)
  {
    if s == [] then 0 else 10 * DecimalValue(s[..|s| - 1]) + (s[|s| - 1] as int - '0' as int)
  }

  /** A digit string has a positive value exactly when one of its digits is not `0`. */
  lemma {:induction false} DecimalPositive(s: string)
    requires AllDigits(s)
    ensures DecimalValue(s) > 0 <==> exists i :: 0 <= i < |s| && s[i] != '0'
  {
    if s != [] {
      var p := s[..|s| - 1];
      DecimalPositive(p);
      assert forall i :: 0 <= i < |p| ==> p[i] == s[i];
      if DecimalValue(s) > 0 && s[|s| - 1] == '0' {
        var i :| 0 <= i < |p| && p[i] != '0';
        assert s[i] != '0';
      }
    }
  }

  /** `\d+\.` at the start of `s`: the digits, and what follows the dot. */
  function DigitsThenDot(s: string): (r: Option<(string, string)>)
    ensures r.Some? ==> AllDigits(r.value.0) && r.value.0 != [] && s == r.value.0 + "." + r.value.1
  {
    var a := DigitRun(s);
    if a == 0 || a == |s| || s[a] != '.' then None
    else
      assert s == s[..a] + "." + s[a + 1..];
      Some((s[..a], s[a + 1..]))
  }

  lemma DigitsThenDotOf(d: string, rest: string)
    requires AllDigits(d) && d != []
    ensures DigitsThenDot(d + "." + rest) == Some((d, rest))
  {
    assert d + "." + rest == d + ("." + rest);
    DigitRunOf(d, "." + rest);
    assert (d + "." + rest)[|d| + 1..] == rest;
  }

  /** The leading `\d+\.\d+\.\d+` of `s` as its three digit runs, if `s` starts with one. `\d+` is
      greedy and none of the digit runs can be followed by a digit, so the match is unique. */
  function TripleParts(s: string): (r: Option<(string, string, string)>)
    ensures r.Some? ==> && AllDigits(r.value.0) && AllDigits(r.value.1) && AllDigits(r.value.2)
                        && r.value.0 != [] && r.value.1 != [] && r.value.2 != []
  {
    match DigitsThenDot(s)
    case None => None
    case Some((a, t)) =>
      match DigitsThenDot(t)
      case None => None
      case Some((b, u)) =>
        var c := DigitRun(u);
        if c == 0 then None else Some((a, b, u[..c]))
  }

  function Dotted(p: (string, string, string)): string
  {
    p.0 + "." + p.1 + "." + p.2
  }

  /** The triple found is a prefix of `s`, and the next character, if any, is not a digit. */
  lemma TriplePrefix(s: string)
    requires TripleParts(s).Some?
    ensures var m := Dotted(TripleParts(s).value);
      StartsWith(s, m) && (|m| < |s| ==> !IsDigit(s[|m|]))
  {
    var a := DigitsThenDot(s).value.0;
    var t := DigitsThenDot(s).value.1;
    var b := DigitsThenDot(t).value.0;
    var u := DigitsThenDot(t).value.1;
    var c := DigitRun(u);
    assert TripleParts(s).value == (a, b, u[..c]);
    PrefixOfParts(s, a, t, b, u, c);
  }

  lemma PrefixOfParts(s: string, a: string, t: string, b: string, u: string, c: nat)
    requires s == a + "." + t && t == b + "." + u && c <= |u| && (c < |u| ==> !IsDigit(u[c]))
    ensures var m := Dotted((a, b, u[..c]));
      StartsWith(s, m) && (|m| < |s| ==> !IsDigit(s[|m|]))
  {
    var m := Dotted((a, b, u[..c]));
    assert s == m + u[c..];
    assert s[..|m|] == m;
  }

  /** `extract_upstream_version`: the leading `major.minor.patch`, or the input unchanged. */
  function ExtractUpstreamVersion(v: string): (r: string)
    ensures TripleParts(v).Some? ==> r == Dotted(TripleParts(v).value)
    ensures TripleParts(v).None? ==> r == v
  {
    match TripleParts(v)
    case None => v
    case Some(p) => Dotted(p)
  }

  /** A string that starts with `\d+\.\d+\.\d+` and ends there, or before a final newline. */
  predicate AtEnd(s: string)
  {
    s == [] || s == "\n"
  }

  /** `re.match(r"^\d+\.\d+\.\d+(-\d+)?$", s)`; Python's `$` also matches before a final newline. */
  predicate VersionPattern(s: string)
  {
    match TripleParts(s)
    case None => false
    case Some(p) =>
      var rest := s[|Dotted(p)|..];
      || AtEnd(rest)
      || (rest != [] && rest[0] == '-' && DigitRun(rest[1..]) > 0 && AtEnd(rest[1..][DigitRun(rest[1..])..]))
  }

  /** A dotted triple of digit runs, followed by anything but a digit, is read back as that triple. */
  lemma DottedParts(p: (string, string, string), rest: string)
    requires AllDigits(p.0) && AllDigits(p.1) && AllDigits(p.2) && p.0 != [] && p.1 != [] && p.2 != []
    requires rest != [] ==> !IsDigit(rest[0])
    ensures TripleParts(Dotted(p) + rest) == Some(p)
  {
    assert Dotted(p) + rest == p.0 + "." + (p.1 + "." + (p.2 + rest));
    DigitsThenDotOf(p.0, p.1 + "." + (p.2 + rest));
    DigitsThenDotOf(p.1, p.2 + rest);
    DigitRunOf(p.2, rest);
  }

  lemma DigitRunOf(d: string, rest: string)
    requires AllDigits(d) && (rest != [] ==> !IsDigit(rest[0]))
    ensures DigitRun(d + rest) == |d| && (d + rest)[..|d|] == d
  {
    if d != [] {
      assert (d + rest)[1..] == d[1..] + rest;
      DigitRunOf(d[1..], rest);
    }
  }

  /** Extraction leaves a string the version pattern accepts exactly when the input starts with
      `major.minor.patch`; the pattern's `-revision` branch is never reached after extraction. */
  lemma ExtractedPattern(v: string)
    ensures VersionPattern(ExtractUpstreamVersion(v)) <==> TripleParts(v).Some?
  {
    if TripleParts(v).Some? {
      var p := TripleParts(v).value;
      DottedParts(p, []);
      assert Dotted(p) + [] == Dotted(p);
    }
  }

  /** Extraction is idempotent. */
  lemma ExtractIdempotent(v: string)
    ensures ExtractUpstreamVersion(ExtractUpstreamVersion(v)) == ExtractUpstreamVersion(v)
  {
    if TripleParts(v).Some? {
      var p := TripleParts(v).value;
      DottedParts(p, []);
      assert Dotted(p) + [] == Dotted(p);
    }
  }

  /** A full version with a Debian revision keeps only its upstream part. */
  lemma ExtractDropsRevision(p: (string, string, string), revision: string)
    requires AllDigits(p.0) && AllDigits(p.1) && AllDigits(p.2) && p.0 != [] && p.1 != [] && p.2 != []
    ensures ExtractUpstreamVersion(Dotted(p) + "-" + revision) == Dotted(p)
  {
    assert Dotted(p) + "-" + revision == Dotted(p) + ("-" + revision);
    DottedParts(p, "-" + revision);
  }

  /** A two-part version is kept whole (and then fails the version pattern). */
  lemma ExtractTwoParts()
    ensures ExtractUpstreamVersion("2.0") == "2.0"
  {
    DigitsThenDotOf("2", "0");
    assert "2" + "." + "0" == "2.0";
    DigitRunOf("0", []);
    assert "0" + [] == "0";
  }

  // ---------------------------------------------------------------------------------------------
  // version_bumped (lines 665-699)
  // ---------------------------------------------------------------------------------------------

  /** `int(s)` on a string: surrounding whitespace, an optional sign, then ASCII digits. */
  function IntOf(s: string): Result<int>
  {
    var t := Strip(s);
    var signed := t != [] && (t[0] == '+' || t[0] == '-');
    var d := if signed then t[1..] else t;
    if d == [] || !AllDigits(d) then Err(ValueError("invalid literal for int() with base 10"))
    else
      var v: int := DecimalValue(d);
      Ok(if signed && t[0] == '-' then -v else v)
  }

  /** `list(map(int, parts))`: the first part that is not a number raises. */
  function IntsOf(parts: seq<string>): (r: Result<seq<int>>)
    ensures r.Ok? ==> |r.value| == |parts|
  {
    if parts == [] then Ok([])
    else
      var h :- IntOf(parts[0]);
      var t :- IntsOf(parts[1..]);
      Ok([h] + t)
  }

  predicate IsIndexName(index: string)
  {
    index == "major" || index == "minor" || index == "patch"
  }

  function IndexOfName(index: string): (k: nat)
    ensures k <= 2
  {
    if index == "major" then 0 else if index == "minor" then 1 else 2
  }

  /** `version_bumped(old, new, index)`: the selected component of the text before the first `-`,
      compared as integers with a strict `>`. */
  function VersionBumped(oldVersion: string, newVersion: string, index: string): Result<bool>
  {
    if !IsIndexName(index) then Err(ValueError("Index must be one of 'major', 'minor', or 'patch'"))
    else
      var o :- IntsOf(SplitOn(SplitOn(oldVersion, "-")[0], "."));
      var n :- IntsOf(SplitOn(SplitOn(newVersion, "-")[0], "."));
      var k := IndexOfName(index);
      if k >= |n| || k >= |o| then Err(IndexError) else Ok(n[k] > o[k])
  }

  /** The components of a dotted triple of digit runs. */
  function Component(p: (string, string, string), k: nat): string
    requires k <= 2
  {
    if k == 0 then p.0 else if k == 1 then p.1 else p.2
  }

  lemma SplitNoSep(s: string, c: char)
    requires forall i :: 0 <= i < |s| ==> s[i] != c
    ensures SplitOn(s, [c]) == [s]
  {
    forall i | 0 <= i < |s| ensures !OccursAt(s, [c], i) {
      assert s[i..i + 1][0] == s[i];
    }
    assert forall i :: !OccursAt(s, [c], i);
  }

  lemma SplitDigitsDot(d: string, rest: string)
    requires AllDigits(d)
    ensures SplitOn(d + "." + rest, ".") == [d] + SplitOn(rest, ".")
  {
    var s := d + "." + rest;
    assert OccursAt(s, ".", |d|) by { assert s[|d|..|d| + 1] == "."; }
    forall j | 0 <= j < |d| ensures !OccursAt(s, ".", j) {
      assert s[j..j + 1][0] == s[j] == d[j];
    }
    var k := Find(s, ".");
    assert k == |d|;
    assert s[..k] == d && s[k + 1..] == rest;
  }

  /** On a dotted triple of digit runs with no `-`, `version_bumped` compares the decimal values of the
      chosen component. */
  lemma BumpedOnTriples(p: (string, string, string), q: (string, string, string), index: string)
    requires AllDigits(p.0) && AllDigits(p.1) && AllDigits(p.2) && p.0 != [] && p.1 != [] && p.2 != []
    requires AllDigits(q.0) && AllDigits(q.1) && AllDigits(q.2) && q.0 != [] && q.1 != [] && q.2 != []
    requires IsIndexName(index)
    ensures VersionBumped(Dotted(p), Dotted(q), index) ==
      Ok(DecimalValue(Component(q, IndexOfName(index))) > DecimalValue(Component(p, IndexOfName(index))))
  {
    ComponentsOf(p);
    ComponentsOf(q);
  }

  lemma ComponentsOf(p: (string, string, string))
    requires AllDigits(p.0) && AllDigits(p.1) && AllDigits(p.2) && p.0 != [] && p.1 != [] && p.2 != []
    ensures IntsOf(SplitOn(SplitOn(Dotted(p), "-")[0], ".")) ==
      Ok([DecimalValue(p.0), DecimalValue(p.1), DecimalValue(p.2)])
  {
    TripleNoDash(p);
    TripleDots(p);
    TripleInts(p);
  }

  lemma TripleNoDash(p: (string, string, string))
    requires AllDigits(p.0) && AllDigits(p.1) && AllDigits(p.2)
    ensures SplitOn(Dotted(p), "-") == [Dotted(p)]
  {
    var s := Dotted(p);
    forall i | 0 <= i < |s| ensures s[i] != '-' {
      DottedChar(p, i);
    }
    SplitNoSep(s, '-');
  }

  lemma DottedChar(p: (string, string, string), i: nat)
    requires AllDigits(p.0) && AllDigits(p.1) && AllDigits(p.2) && i < |Dotted(p)|
    ensures IsDigit(Dotted(p)[i]) || Dotted(p)[i] == '.'
  {
    var s := Dotted(p);
    if i < |p.0| {
      assert s[i] == p.0[i];
    } else if i == |p.0| {
    } else if i < |p.0| + 1 + |p.1| {
      assert s[i] == p.1[i - |p.0| - 1];
    } else if i == |p.0| + 1 + |p.1| {
    } else {
      assert s[i] == p.2[i - |p.0| - |p.1| - 2];
    }
  }

  lemma TripleDots(p: (string, string, string))
    requires AllDigits(p.0) && AllDigits(p.1) && AllDigits(p.2)
    ensures SplitOn(Dotted(p), ".") == [p.0, p.1, p.2]
  {
    assert Dotted(p) == p.0 + "." + (p.1 + "." + p.2);
    SplitDigitsDot(p.0, p.1 + "." + p.2);
    SplitDigitsDot(p.1, p.2);
    SplitNoSep(p.2, '.');
  }

  lemma TripleInts(p: (string, string, string))
    requires AllDigits(p.0) && AllDigits(p.1) && AllDigits(p.2) && p.0 != [] && p.1 != [] && p.2 != []
    ensures IntsOf([p.0, p.1, p.2]) == Ok([DecimalValue(p.0), DecimalValue(p.1), DecimalValue(p.2)])
  {
    StripDigits(p.0);
    StripDigits(p.1);
    StripDigits(p.2);
    IntsOfCons(p.2, []);
    assert [p.2] + [] == [p.2];
    IntsOfCons(p.1, [p.2]);
    assert [p.1] + [p.2] == [p.1, p.2];
    IntsOfCons(p.0, [p.1, p.2]);
    assert [p.0] + [p.1, p.2] == [p.0, p.1, p.2];
    var v0, v1, v2 := DecimalValue(p.0), DecimalValue(p.1), DecimalValue(p.2);
    assert IntsOf([]) == Ok([]);
    assert [v2] + [] == [v2] && [v1] + [v2] == [v1, v2] && [v0] + [v1, v2] == [v0, v1, v2];
  }

  lemma IntsOfCons(h: string, t: seq<string>)
    ensures IntsOf([h] + t) == (match IntOf(h)
      case Err(e) => Err(e)
      case Ok(v) => (match IntsOf(t) case Err(e) => Err(e) case Ok(vs) => Ok([v] + vs)))
  {
    assert ([h] + t)[0] == h && ([h] + t)[1..] == t;
  }

  lemma StripDigits(d: string)
    requires AllDigits(d) && d != []
    ensures IntOf(d) == Ok(DecimalValue(d))
  {
    assert NoSpace(d);
  }

  // ---------------------------------------------------------------------------------------------
  // analyze_abi_diff_result (lines 701-821)
  // ---------------------------------------------------------------------------------------------

  datatype AbiChange = NoChange | CompatibleChange | IncompatibleChange

  function Pass(msg: string): string { "PASS : " + msg }
  function Fail(msg: string): string { "FAIL : " + msg }

  lemma PassFailTags(msg: string)
    ensures StartsWith(Pass(msg), "PASS") && !StartsWith(Pass(msg), "FAIL")
    ensures StartsWith(Fail(msg), "FAIL") && !StartsWith(Fail(msg), "PASS")
  {
    assert Pass(msg)[..4] == "PASS";
    assert Fail(msg)[..4] == "FAIL";
  }

  /** The verdict table: the ABI change found against the components that were bumped, judged in the
      order major, minor, patch. */
  function Verdict(change: AbiChange, major: bool, minor: bool, patch: bool): string
  {
    match change
    case IncompatibleChange =>
      if major then Pass("Major version increased")
      else if minor then Fail("Minor version increased, needed major increase")
      else if patch then Fail("Patch version increased, needed major increase")
      else Fail("No version increase")
    case CompatibleChange =>
      if major then Pass("Major version increased")
      else if minor then Pass("Minor version increased")
      else if patch then Fail("Patch version increased, needed minor increase")
      else Fail("No version increase")
    case NoChange =>
      if major then Pass("Major version increased")
      else if minor then Pass("Minor version increased")
      else if patch then Pass("Patch version increased")
      else Pass("No version increase")
  }

  /** Semantic Versioning 2.0.0, items 6-8, as the table applies it: a backwards-incompatible change needs
      a major bump, a backwards-compatible one at least a minor bump, and no change needs nothing; a bump
      of a more significant component than required is accepted. */
  predicate SemVerAllows(change: AbiChange, major: bool, minor: bool)
  {
    match change
    case IncompatibleChange => major
    case CompatibleChange => major || minor
    case NoChange => true
  }

  /** A verdict passes exactly when the release policy allows the bump, and every verdict is either a
      pass or a failure. */
  lemma VerdictPolicy(change: AbiChange, major: bool, minor: bool, patch: bool)
    ensures StartsWith(Verdict(change, major, minor, patch), "PASS") <==> SemVerAllows(change, major, minor)
    ensures StartsWith(Verdict(change, major, minor, patch), "PASS") !=
            StartsWith(Verdict(change, major, minor, patch), "FAIL")
  {
    PassFailTags("Major version increased");
    PassFailTags("Minor version increased");
    PassFailTags("Patch version increased");
    PassFailTags("No version increase");
    PassFailTags("Minor version increased, needed major increase");
    PassFailTags("Patch version increased, needed major increase");
    PassFailTags("Patch version increased, needed minor increase");
  }

  /** The change bits of an exit status: bit 2 is an ABI change, bit 3 an incompatible one. */
  function ChangeOf(status: int): AbiChange
  {
    if Bit(status, 3) then IncompatibleChange else if Bit(status, 2) then CompatibleChange else NoChange
  }

  /** `analyze_abi_diff_result`. `abidiff_result & 0b0011` is non-zero exactly when bit 0 or bit 1 is set. */
  function AnalyzeAbiDiffResult(oldVersion: string, newVersion: string, status: int): Result<string>
  {
    var o := ExtractUpstreamVersion(oldVersion);
    var n := ExtractUpstreamVersion(newVersion);
    if !VersionPattern(o) then
      Err(ValueError("Invalid old version: " + o + ". Expected a string in the format 'major.minor.patch'"))
    else if !VersionPattern(n) then
      Err(ValueError("Invalid new version: " + n + ". Expected a string in the format 'major.minor.patch'"))
    else if Bit(status, 0) || Bit(status, 1) then
      Err(ValueError("[ABI_CHECKER]/[RESULT]: ASSERT : this scenario should have already been dealt with"))
    else if Bit(status, 3) && !Bit(status, 2) then
      Err(ValueError("[ABI_CHECKER]/[RESULT]: ASSERT : impossible scenario, if incompatible is set, change has to be set too"))
    else
      var major :- VersionBumped(o, n, "major");
      var minor :- VersionBumped(o, n, "minor");
      var patch :- VersionBumped(o, n, "patch");
      Ok(Verdict(ChangeOf(status), major, minor, patch))
  }

  /** The analysis raises only `ValueError` and `IndexError`. */
  lemma AnalyzeRaises(oldVersion: string, newVersion: string, status: int)
    ensures var r := AnalyzeAbiDiffResult(oldVersion, newVersion, status);
      r.Err? ==> r.error.ValueError? || r.error.IndexError?
  {
    var o := ExtractUpstreamVersion(oldVersion);
    var n := ExtractUpstreamVersion(newVersion);
    if VersionPattern(o) && VersionPattern(n) && !(Bit(status, 0) || Bit(status, 1)) && !(Bit(status, 3) && !Bit(status, 2)) {
      BumpRaises(o, n, "major");
      BumpRaises(o, n, "minor");
      BumpRaises(o, n, "patch");
    }
  }

  lemma BumpRaises(oldVersion: string, newVersion: string, index: string)
    ensures var r := VersionBumped(oldVersion, newVersion, index);
      r.Err? ==> r.error.ValueError? || r.error.IndexError?
  {
    IntsOfRaises(SplitOn(SplitOn(oldVersion, "-")[0], "."));
    IntsOfRaises(SplitOn(SplitOn(newVersion, "-")[0], "."));
  }

  lemma {:induction false} IntsOfRaises(parts: seq<string>)
    ensures IntsOf(parts).Err? ==> IntsOf(parts).error.ValueError?
  {
    if parts != [] {
      IntsOfRaises(parts[1..]);
    }
  }

  /** The component `k` of version `v` as a number, for `v` starting with `major.minor.patch`. */
  function ComponentValue(v: string, k: nat): nat
    requires TripleParts(v).Some? && k <= 2
  {
    DecimalValue(Component(TripleParts(v).value, k))
  }

  /** The analysis raises when a version does not start with `major.minor.patch`, the status has an
      error bit, or it reports an incompatible change without a change. */
  lemma AnalyzeRejects(oldVersion: string, newVersion: string, status: int)
    requires || TripleParts(oldVersion).None? || TripleParts(newVersion).None?
             || Bit(status, 0) || Bit(status, 1) || (Bit(status, 3) && !Bit(status, 2))
    ensures AnalyzeAbiDiffResult(oldVersion, newVersion, status).Err?
  {
    ExtractedPattern(oldVersion);
    ExtractedPattern(newVersion);
  }

  /** Otherwise it gives the table's verdict on the numeric components, each compared on its own. */
  lemma AnalyzeAccepts(oldVersion: string, newVersion: string, status: int)
    requires TripleParts(oldVersion).Some? && TripleParts(newVersion).Some?
    requires !Bit(status, 0) && !Bit(status, 1) && (Bit(status, 3) ==> Bit(status, 2))
    ensures AnalyzeAbiDiffResult(oldVersion, newVersion, status) ==
      Ok(Verdict(ChangeOf(status),
                 ComponentValue(newVersion, 0) > ComponentValue(oldVersion, 0),
                 ComponentValue(newVersion, 1) > ComponentValue(oldVersion, 1),
                 ComponentValue(newVersion, 2) > ComponentValue(oldVersion, 2)))
  {
    ExtractedPattern(oldVersion);
    ExtractedPattern(newVersion);
    ComponentsBumped(oldVersion, newVersion);
  }

  /** The analysis raises exactly when a version does not start with `major.minor.patch`, the status has
      an error bit, or it reports an incompatible change without a change; otherwise it gives the table's
      verdict on the numeric components, each compared on its own. */
  lemma AnalyzeSpec(oldVersion: string, newVersion: string, status: int)
    ensures AnalyzeAbiDiffResult(oldVersion, newVersion, status).Err? <==>
      || TripleParts(oldVersion).None? || TripleParts(newVersion).None?
      || Bit(status, 0) || Bit(status, 1) || (Bit(status, 3) && !Bit(status, 2))
    ensures AnalyzeAbiDiffResult(oldVersion, newVersion, status).Ok? ==>
      AnalyzeAbiDiffResult(oldVersion, newVersion, status).value ==
        Verdict(ChangeOf(status),
                ComponentValue(newVersion, 0) > ComponentValue(oldVersion, 0),
                ComponentValue(newVersion, 1) > ComponentValue(oldVersion, 1),
                ComponentValue(newVersion, 2) > ComponentValue(oldVersion, 2))
  {
    if || TripleParts(oldVersion).None? || TripleParts(newVersion).None?
       || Bit(status, 0) || Bit(status, 1) || (Bit(status, 3) && !Bit(status, 2)) {
      AnalyzeRejects(oldVersion, newVersion, status);
    } else {
      AnalyzeAccepts(oldVersion, newVersion, status);
    }
  }

  /** On two versions starting with `major.minor.patch` every component comparison succeeds. */
  lemma ComponentsBumped(oldVersion: string, newVersion: string)
    requires TripleParts(oldVersion).Some? && TripleParts(newVersion).Some?
    ensures VersionBumped(ExtractUpstreamVersion(oldVersion), ExtractUpstreamVersion(newVersion), "major") ==
      Ok(ComponentValue(newVersion, 0) > ComponentValue(oldVersion, 0))
    ensures VersionBumped(ExtractUpstreamVersion(oldVersion), ExtractUpstreamVersion(newVersion), "minor") ==
      Ok(ComponentValue(newVersion, 1) > ComponentValue(oldVersion, 1))
    ensures VersionBumped(ExtractUpstreamVersion(oldVersion), ExtractUpstreamVersion(newVersion), "patch") ==
      Ok(ComponentValue(newVersion, 2) > ComponentValue(oldVersion, 2))
  {
    var p := TripleParts(oldVersion).value;
    var q := TripleParts(newVersion).value;
    BumpedOnTriples(p, q, "major");
    BumpedOnTriples(p, q, "minor");
    BumpedOnTriples(p, q, "patch");
  }

  /** A verdict of the analysis passes exactly when the release policy allows the bump. */
  lemma AnalyzePolicy(oldVersion: string, newVersion: string, status: int)
    requires AnalyzeAbiDiffResult(oldVersion, newVersion, status).Ok?
    ensures TripleParts(oldVersion).Some? && TripleParts(newVersion).Some?
    ensures StartsWith(AnalyzeAbiDiffResult(oldVersion, newVersion, status).value, "PASS") <==>
      SemVerAllows(ChangeOf(status),
                   ComponentValue(newVersion, 0) > ComponentValue(oldVersion, 0),
                   ComponentValue(newVersion, 1) > ComponentValue(oldVersion, 1))
  {
    AnalyzeSpec(oldVersion, newVersion, status);
    VerdictPolicy(ChangeOf(status),
                  ComponentValue(newVersion, 0) > ComponentValue(oldVersion, 0),
                  ComponentValue(newVersion, 1) > ComponentValue(oldVersion, 1),
                  ComponentValue(newVersion, 2) > ComponentValue(oldVersion, 2));
  }

  /** On two well-formed triples and a consistent status the verdict is the table's on the components. */
  lemma AnalyzeTriples(p: (string, string, string), q: (string, string, string), status: int)
    requires AllDigits(p.0) && AllDigits(p.1) && AllDigits(p.2) && p.0 != [] && p.1 != [] && p.2 != []
    requires AllDigits(q.0) && AllDigits(q.1) && AllDigits(q.2) && q.0 != [] && q.1 != [] && q.2 != []
    requires !Bit(status, 0) && !Bit(status, 1) && (Bit(status, 3) ==> Bit(status, 2))
    ensures AnalyzeAbiDiffResult(Dotted(p), Dotted(q), status) ==
      Ok(Verdict(ChangeOf(status), DecimalValue(q.0) > DecimalValue(p.0), DecimalValue(q.1) > DecimalValue(p.1),
                 DecimalValue(q.2) > DecimalValue(p.2)))
  {
    assert Dotted(p) + [] == Dotted(p) && Dotted(q) + [] == Dotted(q);
    DottedParts(p, []);
    DottedParts(q, []);
    AnalyzeAccepts(Dotted(p), Dotted(q), status);
  }

  /** Components are compared one by one, so a lower major version goes unnoticed: from 2.0.0 to 1.5.0
      with a compatible change passes as a minor bump. */
  lemma IndependentComponents(p: (string, string, string), q: (string, string, string), status: int)
    requires AllDigits(p.0) && AllDigits(p.1) && AllDigits(p.2) && p.0 != [] && p.1 != [] && p.2 != []
    requires AllDigits(q.0) && AllDigits(q.1) && AllDigits(q.2) && q.0 != [] && q.1 != [] && q.2 != []
    requires !Bit(status, 0) && !Bit(status, 1) && Bit(status, 2) && !Bit(status, 3)
    requires DecimalValue(q.0) < DecimalValue(p.0) && DecimalValue(q.1) > DecimalValue(p.1)
    ensures AnalyzeAbiDiffResult(Dotted(p), Dotted(q), status) == Ok(Pass("Minor version increased"))
  {
    AnalyzeTriples(p, q, status);
    assert ChangeOf(status) == CompatibleChange;
    assert Verdict(CompatibleChange, false, true, DecimalValue(q.2) > DecimalValue(p.2)) == Pass("Minor version increased");
  }

  // ---------------------------------------------------------------------------------------------
  // The changed-functions summary (line 549)
  // ---------------------------------------------------------------------------------------------

  /** Length of the leading whitespace run: what a greedy `\s+` consumes. */
  function SpaceRun(s: string): (n: nat)
    ensures n <= |s| && forall i :: 0 <= i < n ==> IsSpace(s[i])
    ensures n < |s| ==> !IsSpace(s[n])
  {
    if s == [] || !IsSpace(s[0]) then 0 else 1 + SpaceRun(s[1..])
  }

  /** `\s+(\d+)\s+` at the start of `s`: the digits and what follows the second run of whitespace. Each
      greedy run stops at a character the next part needs, so the match is the only one. */
  function SpacedNumber(s: string): (r: Option<(string, string)>)
    ensures r.Some? ==> AllDigits(r.value.0) && r.value.0 != []
  {
    var w1 := SpaceRun(s);
    var d := DigitRun(s[w1..]);
    var t := s[w1..][d..];
    var w2 := SpaceRun(t);
    if w1 == 0 || d == 0 || w2 == 0 then None else Some((s[w1..][..d], t[w2..]))
  }

  /** A number between single spaces. */
  function Spaced(d: string): string { " " + d + " " }

  lemma SpacedNumberOf(d: string, rest: string)
    requires AllDigits(d) && d != [] && (rest == [] || !IsSpace(rest[0]))
    ensures SpacedNumber(Spaced(d) + rest) == Some((d, rest))
  {
    var s := Spaced(d) + rest;
    assert s == " " + (d + (" " + rest));
    assert s[1..] == d + (" " + rest);
    assert SpaceRun(s) == 1 by {
      assert s[0] == ' ' && !IsSpace(s[1..][0]);
    }
    DigitRunOf(d, " " + rest);
    assert (" " + rest)[1..] == rest;
    assert SpaceRun(" " + rest) == 1;
  }

  lemma SplitAfter(p: string, s: string)
    ensures (p + s)[..|p|] == p && (p + s)[|p|..] == s
  {
  }

  const SummaryHead: string := "Functions changes summary:"

  /** `Functions changes summary:\s+(\d+)\s+Removed,\s+(\d+)\s+Changed,` matched at the start of `s`: the
      value of the second group. */
  function SummaryAt(s: string): Option<nat>
  {
    if !StartsWith(s, SummaryHead) then None
    else match SpacedNumber(s[|SummaryHead|..])
      case None => None
      case Some((_, r1)) =>
        if !StartsWith(r1, "Removed,") then None
        else match SpacedNumber(r1[8..])
          case None => None
          case Some((d2, r2)) => if StartsWith(r2, "Changed,") then Some(DecimalValue(d2)) else None
  }

  /** `re.search` with a matcher `m` anchored at each position: the match at the leftmost position. */
  function Search(s: string, m: string -> Option<nat>): (r: Option<nat>)
    ensures r.None? <==> forall i :: 0 <= i <= |s| ==> m(s[i..]).None?
    ensures r.Some? ==> exists i :: 0 <= i <= |s| && m(s[i..]) == r &&
                                    forall j :: 0 <= j < i ==> m(s[j..]).None?
  {
    assert s[0..] == s;
    if m(s).Some? then m(s)
    else if s == [] then None
    else
      var r := Search(s[1..], m);
      assert forall i :: 1 <= i <= |s| ==> s[i..] == s[1..][i - 1..];
      if r.Some? then
        var i :| 0 <= i <= |s[1..]| && m(s[1..][i..]) == r && forall j :: 0 <= j < i ==> m(s[1..][j..]).None?;
        assert m(s[i + 1..]) == r;
        r
      else
        r
  }

  /** The number of changed functions the report announces, if it has a summary line. */
  function ChangedCount(report: string): Option<nat>
  {
    Search(report, SummaryAt)
  }

  /** The summary line for digit strings `removed` and `changed`, followed by `rest`. */
  function SummaryLine(removed: string, changed: string, rest: string): string
  {
    SummaryHead + (Spaced(removed) + ("Removed," + (Spaced(changed) + ("Changed," + rest))))
  }

  /** A summary line written out with digit strings `removed` and `changed` is read back as `changed`. */
  lemma SummaryRoundTrip(removed: string, changed: string, rest: string)
    requires AllDigits(removed) && AllDigits(changed) && removed != [] && changed != []
    ensures SummaryAt(SummaryLine(removed, changed, rest)) == Some(DecimalValue(changed))
  {
    var tail := "Changed," + rest;
    var r1 := "Removed," + (Spaced(changed) + tail);
    SplitAfter(SummaryHead, Spaced(removed) + r1);
    SpacedNumberOf(removed, r1);
    SplitAfter("Removed,", Spaced(changed) + tail);
    SpacedNumberOf(changed, tail);
    SplitAfter("Changed,", rest);
  }

  // ---------------------------------------------------------------------------------------------
  // Exit-status classification and escalation (lines 517-576)
  // ---------------------------------------------------------------------------------------------

  /** What lines 517-576 make of the exit status and the report: a raise, the early return of a stripped
      package, or the result label (unset when none of the four low bits is set), the return value and the
      status passed on to the analysis. */
  datatype Classification =
    | Raised
    | Stripped
    | Classified(result: Option<string>, ret: int, status: int)

  /** Bit 2 with a positive count of changed functions in the report promotes the change to incompatible. */
  predicate Escalates(status: int, report: string)
  {
    Bit(status, 2) && ChangedCount(report).Some? && ChangedCount(report).value > 0
  }

  function Classify(status: int, report: string): Classification
  {
    if status == 0 then Classified(Some("NO-DIFF"), ReturnAbiNoDiff, status)
    else if Bit(status, 0) then Raised
    else if Bit(status, 1) then Stripped
    else
      var afterChange :=
        if !Bit(status, 2) then Classified(None, 0, status)
        else if Escalates(status, report) then
          Classified(Some("INCOMPATIBLE-DIFF"), ReturnAbiIncompatibleDiff, Or(status, 8))
        else Classified(Some("COMPATIBLE-DIFF"), ReturnAbiCompatibleDiff, status);
      if Bit(status, 3) then afterChange.(result := Some("INCOMPATIBLE-DIFF"), ret := ReturnAbiIncompatibleDiff)
      else afterChange
  }

  /** Classification on the status bits: 0 is no difference; bit 0 raises; bit 1 stops as a stripped
      package; otherwise the return value is 2 exactly when bit 3 is set or the change escalates, 1 for a
      remaining change, and 0 with no label when none of the four low bits is set. */
  lemma ClassifySpec(status: int, report: string)
    ensures Classify(status, report).Raised? <==> Bit(status, 0)
    ensures Classify(status, report).Stripped? <==> !Bit(status, 0) && Bit(status, 1)
    ensures var c := Classify(status, report); c.Classified? ==>
      && (c.ret == 2 <==> Bit(status, 3) || Escalates(status, report))
      && (c.ret == 1 <==> !Bit(status, 3) && Bit(status, 2) && !Escalates(status, report))
      && (c.ret == 0 <==> !Bit(status, 3) && !Bit(status, 2))
      && (c.result.None? <==> status != 0 && !Bit(status, 2) && !Bit(status, 3))
      && (c.ret == 2 <==> c.result == Some("INCOMPATIBLE-DIFF"))
  {
    if status == 0 {
      BitZero(0);
      BitZero(1);
      BitZero(2);
      BitZero(3);
    }
  }

  lemma EightBits(k: nat)
    ensures Bit(8, k) <==> k == 3
  {
    BitZero(0);
    assert Bit(8, 0) == false && Bit(8, 1) == Bit(4, 0) && Bit(8, 2) == Bit(2, 0);
    if k >= 3 {
      assert Bit(8, k) == Bit(4, k - 1) == Bit(2, k - 2) == Bit(1, k - 3);
      if k > 3 {
        assert Bit(1, k - 3) == Bit(0, k - 4);
        BitZero(k - 4);
      }
    }
  }

  /** The status passed on keeps every bit of the exit status and gains bit 3 exactly when the change
      escalates, so the analysis sees an incompatible change exactly when the return value is 2. */
  lemma ClassifiedStatus(status: int, report: string, k: nat)
    requires Classify(status, report).Classified?
    ensures var s := Classify(status, report).status;
      && (k != 3 ==> (Bit(s, k) <==> Bit(status, k)))
      && (Bit(s, 3) <==> Bit(status, 3) || Escalates(status, report))
      && (Classify(status, report).ret == 2 <==> ChangeOf(s) == IncompatibleChange)
  {
    EightBits(k);
    EightBits(3);
    BitOr(status, 8, k);
    BitOr(status, 8, 3);
    ClassifySpec(status, report);
    if status == 0 {
      BitZero(3);
    }
  }

  // ---------------------------------------------------------------------------------------------
  // Remarks (lines 580-595)
  // ---------------------------------------------------------------------------------------------

  const NoDevRemark: string := "NO-DEV-PACKAGE"
  const NoDbgRemark: string := "NO-DBG-PACKAGE"

  /** The remark for the companion packages found on each side, updating the record's `prior` remark:
      a missing `-dev` package overwrites it, a missing debug package is appended to whatever is there. */
  function Remark(prior: Option<string>, oldDev: bool, newDev: bool, oldDdeb: bool, newDdeb: bool): Option<string>
  {
    var dev := if !oldDev || !newDev then Some(NoDevRemark) else prior;
    if !oldDdeb || !newDdeb then
      if dev.Some? then Some(dev.value + ", " + NoDbgRemark) else Some(NoDbgRemark)
    else dev
  }

  /** Starting from an unset remark, the remark names the missing `-dev` package exactly when one side
      lacks it, and the missing debug package exactly when one side lacks it; with both it is the two
      names in that order. */
  lemma RemarkSpec(oldDev: bool, newDev: bool, oldDdeb: bool, newDdeb: bool)
    ensures var r := Remark(None, oldDev, newDev, oldDdeb, newDdeb);
      && (r.None? <==> oldDev && newDev && oldDdeb && newDdeb)
      && (r.Some? ==> (Contains(r.value, NoDevRemark) <==> !oldDev || !newDev))
      && (r.Some? ==> (Contains(r.value, NoDbgRemark) <==> !oldDdeb || !newDdeb))
      && ((!oldDev || !newDev) && (!oldDdeb || !newDdeb) ==> r == Some(NoDevRemark + ", " + NoDbgRemark))
  {
    var both := NoDevRemark + ", " + NoDbgRemark;
    assert OccursAt(both, NoDevRemark, 0) by { assert both[0..14] == NoDevRemark; }
    assert OccursAt(both, NoDbgRemark, 16) by { assert both[16..30] == NoDbgRemark; }
    assert OccursAt(NoDevRemark, NoDevRemark, 0) by { assert NoDevRemark[0..14] == NoDevRemark; }
    assert OccursAt(NoDbgRemark, NoDbgRemark, 0) by { assert NoDbgRemark[0..14] == NoDbgRemark; }
    OnlyAtZero(NoDevRemark, NoDbgRemark);
    OnlyAtZero(NoDbgRemark, NoDevRemark);
  }

  /** Two different strings of the same length do not contain each other. */
  lemma OnlyAtZero(s: string, t: string)
    requires |s| == |t| && s != t
    ensures !Contains(s, t)
  {
    forall i ensures !OccursAt(s, t, i) {
      if i == 0 {
        assert s[0..|t|] == s;
      }
    }
  }

  // ---------------------------------------------------------------------------------------------
  // Package selection (lines 280-313, 331-383, 466-500)
  // ---------------------------------------------------------------------------------------------

  /** A core package: a `.deb` that is neither a `-dev` nor a `-dbgsym` package. */
  predicate IsCoreDeb(f: string)
  {
    EndsWith(f, ".deb") && !Contains(f, "-dev") && !Contains(f, "-dbgsym")
  }

  function CoreFiles(listing: seq<string>): seq<string>
  {
    Filter(listing, IsCoreDeb)
  }

  /** The package name of a file: the stem before the first `_` of the name without its extension. */
  function PackageName(file: string): string
  {
    Stem(SplitextRoot(file))
  }

  /** The second `_` field of the name without its extension: the version of a package file, or
      `IndexError` when there is none. */
  function VersionField(file: string): (r: Result<string>)
    ensures r.Err? <==> |SplitOn(SplitextRoot(file), "_")| < 2
  {
    var parts := SplitOn(SplitextRoot(file), "_");
    if |parts| < 2 then Err(IndexError) else Ok(parts[1])
  }

  /** The file name selection reads back: package `name_version_arch.deb` has name `name` and version
      `version`. */
  lemma NameAndVersion(name: string, version: string, arch: string)
    requires '_' !in name && '_' !in version && '_' !in arch && '.' !in arch && '.' !in name
    requires name != []
    ensures PackageName(name + "_" + version + "_" + arch + ".deb") == name
    ensures VersionField(name + "_" + version + "_" + arch + ".deb") == Ok(version)
  {
    var root := name + "_" + version + "_" + arch;
    assert name + "_" + version + "_" + arch + ".deb" == root + "." + "deb";
    assert root[0] == name[0];
    SplitextOf(root, "deb");
    StemOf(name, version + "_" + arch);
    assert root == name + "_" + (version + "_" + arch);
    SplitSingle(name, version + "_" + arch);
    SplitSingle(version, arch);
    assert SplitOn(arch, "_") == [arch] by { SplitNo(arch, '_'); }
  }

  lemma {:induction false} StemOf(a: string, b: string)
    requires '_' !in a
    ensures Stem(a + "_" + b) == a
  {
    if a != [] {
      assert (a + "_" + b)[1..] == a[1..] + "_" + b;
      StemOf(a[1..], b);
    }
  }

  lemma SplitNo(s: string, c: char)
    requires c !in s
    ensures SplitOn(s, [c]) == [s]
  {
    forall i ensures !OccursAt(s, [c], i) {
      if 0 <= i && i + 1 <= |s| {
        assert s[i..i + 1][0] == s[i];
      }
    }
  }

  lemma SplitSingle(a: string, b: string)
    requires '_' !in a
    ensures SplitOn(a + "_" + b, "_") == [a] + SplitOn(b, "_")
  {
    var s := a + "_" + b;
    forall i | 0 <= i < |a| ensures !OccursAt(s, "_", i) {
      assert s[i..i + 1][0] == a[i];
    }
    assert OccursAt(s, "_", |a|) by { assert s[|a|..|a| + 1] == "_"; }
    assert s[..|a|] == a && s[|a| + 1..] == b;
  }

  /** A `-dev` candidate for the name without its major digit: a `.deb` containing both. */
  function IsNewDev(pnm: string): string -> bool
  {
    f => EndsWith(f, ".deb") && Contains(f, pnm) && Contains(f, "-dev")
  }

  /** Among several candidates, the ones containing `<name>-dev`. */
  function IsExactDev(pnm: string): string -> bool
  {
    f => Contains(f, pnm + "-dev")
  }

  /** A debug-symbols package of `name`. */
  function IsNewDdeb(name: string): string -> bool
  {
    f => EndsWith(f, ".ddeb") && Contains(f, name + "-dbgsym")
  }

  /** How a companion package is chosen: none found, one file, more than one, or (for `-dev`) several
      candidates of which none has the exact `<name>-dev` form, where indexing the empty list raises. */
  datatype Choice = Absent | Found(file: string) | Multiple | NoExactMatch

  const MultipleDetected: string := "ERROR : multiple detected"

  /** The new `-dev` package (lines 338-361). */
  function NewDevChoice(listing: seq<string>, pnm: string): (c: Choice)
    ensures c.Absent? <==> forall i :: 0 <= i < |listing| ==> !IsNewDev(pnm)(listing[i])
    ensures c.Found? ==> c.file in listing && IsNewDev(pnm)(c.file)
    ensures c.Found? && |Filter(listing, IsNewDev(pnm))| > 1 ==> Contains(c.file, pnm + "-dev")
    ensures c.Multiple? || c.NoExactMatch? ==> |Filter(listing, IsNewDev(pnm))| > 1
  {
    var devs := Filter(listing, IsNewDev(pnm));
    assert (forall i :: 0 <= i < |listing| ==> !IsNewDev(pnm)(listing[i])) <==> devs == [] by {
      if devs != [] {
        assert devs[0] in listing;
      }
    }
    if devs == [] then Absent
    else if |devs| == 1 then
      assert devs[0] in devs;
      Found(devs[0])
    else
      var exact := Filter(devs, IsExactDev(pnm));
      if |exact| > 1 then Multiple
      else if exact == [] then NoExactMatch
      else
        assert exact[0] in exact && exact[0] in devs;
        Found(exact[0])
  }

  /** The new debug-symbols package (lines 365-377). */
  function NewDdebChoice(listing: seq<string>, name: string): (c: Choice)
    ensures c.Absent? <==> forall i :: 0 <= i < |listing| ==> !IsNewDdeb(name)(listing[i])
    ensures c.Found? ==> c.file in listing && IsNewDdeb(name)(c.file) &&
                         forall g :: g in listing && IsNewDdeb(name)(g) ==> g == c.file
    ensures c.Multiple? <==> |Filter(listing, IsNewDdeb(name))| > 1
    ensures !c.NoExactMatch?
  {
    var ddebs := Filter(listing, IsNewDdeb(name));
    assert (forall i :: 0 <= i < |listing| ==> !IsNewDdeb(name)(listing[i])) <==> ddebs == [] by {
      if ddebs != [] {
        assert ddebs[0] in listing;
      }
    }
    if ddebs == [] then Absent
    else if |ddebs| == 1 then
      assert ddebs[0] in ddebs;
      assert forall g :: g in ddebs ==> g == ddebs[0];
      Found(ddebs[0])
    else Multiple
  }

  /** The old packages in the download directory (lines 466-500). */
  predicate IsOldDeb(f: string) { EndsWith(f, ".deb") && !Contains(f, "-dev") }
  predicate IsOldDev(f: string) { EndsWith(f, ".deb") && Contains(f, "-dev") }
  predicate IsOldDdeb(f: string) { EndsWith(f, ".ddeb") && Contains(f, "-dbgsym") }

  // ---------------------------------------------------------------------------------------------
  // single_package_abi_checker (lines 315-604)
  // ---------------------------------------------------------------------------------------------

  /** `ABI_DIFF_Result`: what the report shows for one package. */
  datatype AbiDiffResult = AbiDiffResult(
    packageName: string,
    repoName: Option<string>,
    newDebName: Option<string>,
    newDevName: Option<string>,
    newDdebName: Option<string>,
    newDebVersion: Option<string>,
    oldDebName: Option<string>,
    oldDevName: Option<string>,
    oldDdebName: Option<string>,
    oldDebVersion: Option<string>,
    diffResult: Option<string>,
    remark: Option<string>,
    versionCheck: Option<string>,
    output: Option<string>)

  function NewResult(name: string): (r: AbiDiffResult)
    ensures r.packageName == name
  {
    AbiDiffResult(name, None, None, None, None, None, None, None, None, None, None, None, None, None)
  }

  /** What the package's world returns: whether `apt-get update` and the core download succeed, the
      download directory afterwards, and the exit status and report of `abipkgdiff`. */
  datatype PackageEnv = PackageEnv(
    aptUpdateOk: bool,
    downloadOk: bool,
    oldListing: seq<string>,
    status: int,
    report: string)

  /** What lines 598-600 do with the temporary directory: keep it (`keep_temp` true); as written, with
      `keep_temp` false, remove `abi_check_temp_dir`, a name the package run does not define; corrected,
      remove the package's own directory `package_abi_check_temp_dir`. */
  datatype Cleanup = KeepTemp | RemoveUndefined | RemoveOwn

  /** The cleanup the as-written and the corrected code perform for a `keep_temp` argument. */
  function AsWrittenCleanup(keepTemp: bool): Cleanup
  {
    if keepTemp then KeepTemp else RemoveUndefined
  }

  function FixedCleanup(keepTemp: bool): Cleanup
  {
    if keepTemp then KeepTemp else RemoveOwn
  }

  const OldDebMissing: string := "No .deb file found in '{old_download_dir}' that does not contain '-dev' in the name"

  /** Where the run stands after the new and the old packages are chosen: stopped with a return value
      or an exception, or ready to compare, with both versions and which companion packages were found. */
  datatype Stage =
    | Stop(ret: Result<int>, rec: AbiDiffResult)
    | Go(rec: AbiDiffResult, ov: string, nv: string, oldDev: bool, newDev: bool, oldDdeb: bool, newDdeb: bool)

  /** The package run, `single_package_abi_checker`: its return value (or the exception it raises) and
      the record it leaves, with `cleanup` what it does with the temporary directory. */
  function SinglePackage(rec: AbiDiffResult, file: string, listing: seq<string>, env: PackageEnv, cleanup: Cleanup)
    : (Result<int>, AbiDiffResult)
  {
    match Selection(rec, file, listing, env)
    case Stop(r, out) => (r, out)
    case Go(out, ov, nv, oldDev, newDev, oldDdeb, newDdeb) =>
      Compare(out, ov, nv, oldDev, newDev, oldDdeb, newDdeb, env, cleanup)
  }

  /** The new side (lines 331-361). */
  function Selection(rec: AbiDiffResult, file: string, listing: seq<string>, env: PackageEnv): Stage
  {
    var name := rec.packageName;
    var nv := VersionField(file);
    if nv.Err? then Stop(Err(IndexError), rec)
    else
      var rec1 := rec.(newDebName := Some(file), newDebVersion := Some(nv.value));
      if name == [] then Stop(Err(IndexError), rec1)
      else
        match NewDevChoice(listing, DropTrailingDigit(name))
        case Multiple => Stop(Ok(-1), rec1.(newDevName := Some(MultipleDetected)))
        case NoExactMatch => Stop(Err(IndexError), rec1)
        case Absent => AfterNewDev(rec1, nv.value, listing, false, env)
        case Found(f) => AfterNewDev(rec1.(newDevName := Some(f)), nv.value, listing, true, env)
  }

  /** From the debug package of the new side to the downloads (lines 365-443). */
  function AfterNewDev(rec: AbiDiffResult, nv: string, listing: seq<string>, newDev: bool, env: PackageEnv): Stage
  {
    var choice := NewDdebChoice(listing, rec.packageName);
    if choice.Multiple? then Stop(Ok(0), rec.(newDdebName := Some(MultipleDetected)))
    else
      var rec1 := if choice.Found? then rec.(newDdebName := Some(choice.file)) else rec;
      if !env.aptUpdateOk then Stop(Ok(ReturnPpaError), rec1)
      else if !env.downloadOk then Stop(Ok(ReturnPpaPackageNotFound), rec1)
      else OldSide(rec1, nv, newDev, choice.Found?, env)
  }

  /** The old packages (lines 466-500). */
  function OldSide(rec: AbiDiffResult, nv: string, newDev: bool, newDdeb: bool, env: PackageEnv): Stage
  {
    match FirstWhere(env.oldListing, IsOldDeb)
    case None => Stop(Err(GenericException(OldDebMissing)), rec.(oldDebName := Some("ERROR : None found")))
    case Some(deb) =>
      var rec1 := rec.(oldDebName := Some(deb));
      var ov := VersionField(deb);
      if ov.Err? then Stop(Err(IndexError), rec1)
      else
        var oldDev := FirstWhere(env.oldListing, IsOldDev);
        var oldDdeb := FirstWhere(env.oldListing, IsOldDdeb);
        var rec2 := rec1.(oldDebVersion := Some(ov.value));
        var rec3 := if oldDev.Some? then rec2.(oldDevName := oldDev) else rec2;
        var rec4 := if oldDdeb.Some? then rec3.(oldDdebName := oldDdeb) else rec3;
        Go(rec4, ov.value, nv, oldDev.Some?, newDev, oldDdeb.Some?, newDdeb)
  }

  /** The name lines 598-600 read: a local variable of `single_repo_deb_abi_checker`, undefined in the
      package run. */
  const UndefinedTempDir: string := "abi_check_temp_dir"

  /** Classification, remark, removal of the temporary directory and version check (lines 513-604). The
      as-written removal reads `UndefinedTempDir` and raises `NameError`; removing the package's own
      directory changes nothing the model sees, since the file system is left out. */
  function Compare(rec: AbiDiffResult, ov: string, nv: string, oldDev: bool, newDev: bool,
                   oldDdeb: bool, newDdeb: bool, env: PackageEnv, cleanup: Cleanup): (Result<int>, AbiDiffResult)
  {
    var rec1 := if env.status != 0 then rec.(output := Some(env.report)) else rec;
    match Classify(env.status, env.report)
    case Raised => (Err(GenericException("abipkgdiff encountered an error")), rec1.(diffResult := Some("ERROR")))
    case Stripped => (Ok(ReturnAbiStrippedPackage), rec1.(diffResult := Some("STRIPPED-PACKAGE")))
    case Classified(tag, ret, status) =>
      var rec2 := rec1.(diffResult := if tag.Some? then tag else rec1.diffResult,
                        remark := Remark(rec1.remark, oldDev, newDev, oldDdeb, newDdeb));
      if cleanup == RemoveUndefined then (Err(NameError(UndefinedTempDir)), rec2)
      else
        match AnalyzeAbiDiffResult(ov, nv, status)
        case Err(e) => (Err(e), rec2)
        case Ok(check) => (Ok(ret), rec2.(versionCheck := Some(check)))
  }

  /** The outcome fields of a record: what the comparison writes. */
  function Outcome(rec: AbiDiffResult): (Option<string>, Option<string>, Option<string>, Option<string>)
  {
    (rec.diffResult, rec.remark, rec.versionCheck, rec.output)
  }

  /** The comparison returns 0, 1, 2 or 4; 4 exactly for a stripped package, before the remark and the
      check are written; the check is written exactly when the status is classified, the removal of the
      temporary directory does not raise and the analysis succeeds, and then the return value, label
      and remark are the classification's. It changes no field but the outcome fields. */
  lemma CompareFacts(rec: AbiDiffResult, ov: string, nv: string, oldDev: bool, newDev: bool,
                     oldDdeb: bool, newDdeb: bool, env: PackageEnv, cleanup: Cleanup)
    requires rec.versionCheck.None?
    ensures var (r, out) := Compare(rec, ov, nv, oldDev, newDev, oldDdeb, newDdeb, env, cleanup);
      var c := Classify(env.status, env.report);
      && (r.Ok? ==> r.value in {ReturnAbiNoDiff, ReturnAbiCompatibleDiff, ReturnAbiIncompatibleDiff, ReturnAbiStrippedPackage})
      && (r == Ok(ReturnAbiStrippedPackage) <==> c.Stripped?)
      && (c.Stripped? ==> out.diffResult == Some("STRIPPED-PACKAGE") && out.remark == rec.remark && out.versionCheck.None?)
      && (out.versionCheck.Some? <==>
            c.Classified? && cleanup != RemoveUndefined && AnalyzeAbiDiffResult(ov, nv, c.status).Ok?)
      && (out.versionCheck.Some? ==>
            && r == Ok(c.ret)
            && AnalyzeAbiDiffResult(ov, nv, c.status) == Ok(out.versionCheck.value)
            && out.remark == Remark(rec.remark, oldDev, newDev, oldDdeb, newDdeb)
            && out.diffResult == (if c.result.Some? then c.result else rec.diffResult))
      && (r == Ok(ReturnAbiCompatibleDiff) || r == Ok(ReturnAbiIncompatibleDiff) ==> out.versionCheck.Some?)
      && out.output == (if env.status != 0 then Some(env.report) else rec.output)
      && out.(diffResult := rec.diffResult, remark := rec.remark, versionCheck := rec.versionCheck, output := rec.output) == rec
      && CompareRemoves(rec, ov, nv, oldDev, newDev, oldDdeb, newDdeb, env, cleanup)
  {
    ClassifySpec(env.status, env.report);
    CompareRemoval(rec, ov, nv, oldDev, newDev, oldDdeb, newDdeb, env, cleanup);
  }

  /** The removal of the temporary directory: as written, a classified status with `keep_temp` false
      raises `NameError` after the label and the remark are written and before the check. */
  ghost predicate CompareRemoves(rec: AbiDiffResult, ov: string, nv: string, oldDev: bool, newDev: bool,
                                 oldDdeb: bool, newDdeb: bool, env: PackageEnv, cleanup: Cleanup)
  {
    var (r, out) := Compare(rec, ov, nv, oldDev, newDev, oldDdeb, newDdeb, env, cleanup);
    var c := Classify(env.status, env.report);
    && (r == Err(NameError(UndefinedTempDir)) <==> c.Classified? && cleanup == RemoveUndefined)
    && (r == Err(NameError(UndefinedTempDir)) ==>
          && out.versionCheck == rec.versionCheck
          && out.remark == Remark(rec.remark, oldDev, newDev, oldDdeb, newDdeb)
          && out.diffResult == (if c.result.Some? then c.result else rec.diffResult))
  }

  lemma CompareRemoval(rec: AbiDiffResult, ov: string, nv: string, oldDev: bool, newDev: bool,
                       oldDdeb: bool, newDdeb: bool, env: PackageEnv, cleanup: Cleanup)
    ensures CompareRemoves(rec, ov, nv, oldDev, newDev, oldDdeb, newDdeb, env, cleanup)
  {
    var o := Compare(rec, ov, nv, oldDev, newDev, oldDdeb, newDdeb, env, cleanup);
    var rec1 := if env.status != 0 then rec.(output := Some(env.report)) else rec;
    match Classify(env.status, env.report)
    case Raised =>
      assert o.0 == Err(GenericException("abipkgdiff encountered an error"));
    case Stripped =>
      assert o.0 == Ok(ReturnAbiStrippedPackage);
    case Classified(tag, ret, status) =>
      var rec2 := rec1.(diffResult := if tag.Some? then tag else rec1.diffResult,
                        remark := Remark(rec1.remark, oldDev, newDev, oldDdeb, newDdeb));
      if cleanup == RemoveUndefined {
        assert o == (Err(NameError(UndefinedTempDir)), rec2);
      } else {
        AnalyzeRaises(ov, nv, status);
        var a := AnalyzeAbiDiffResult(ov, nv, status);
        assert o.0 == if a.Ok? then Ok(ret) else Err(a.error);
      }
  }


  /** A record as `single_repo_deb_abi_checker` creates it: only the package and repository names set. */
  predicate IsFresh(rec: AbiDiffResult)
  {
    rec == NewResult(rec.packageName).(repoName := rec.repoName)
  }

  /** The new side is complete: a version field, a non-empty name and no ambiguity among the new
      companion packages. */
  predicate NewSideOk(name: string, file: string, listing: seq<string>)
  {
    && VersionField(file).Ok?
    && name != []
    && (NewDevChoice(listing, DropTrailingDigit(name)).Absent? || NewDevChoice(listing, DropTrailingDigit(name)).Found?)
    && !NewDdebChoice(listing, name).Multiple?
  }

  /** The old side leaves its record ready for comparison: the outcome fields untouched, the old version
      recorded, and for a fresh record names recorded exactly for the old companion packages found. */
  lemma OldSideFacts(rec: AbiDiffResult, nv: string, newDev: bool, newDdeb: bool, env: PackageEnv)
    ensures var st := OldSide(rec, nv, newDev, newDdeb, env);
      && Outcome(st.rec) == Outcome(rec)
      && (st.Stop? ==> st.ret.Err?)
      && (st.Go? ==> st.rec.oldDebVersion == Some(st.ov) && st.nv == nv && st.newDev == newDev && st.newDdeb == newDdeb
                     && st.rec.newDebVersion == rec.newDebVersion && st.rec.newDevName == rec.newDevName
                     && st.rec.newDdebName == rec.newDdebName)
      && (st.Go? && rec.oldDevName.None? && rec.oldDdebName.None? ==>
            st.rec.oldDevName.Some? == st.oldDev && st.rec.oldDdebName.Some? == st.oldDdeb)
  {
  }

  /** After the new `-dev` choice: an ambiguous debug package returns 0, a failed update 16, a failed
      download 8, and otherwise the old side follows. */
  lemma AfterNewDevFacts(rec: AbiDiffResult, nv: string, listing: seq<string>, newDev: bool, env: PackageEnv)
    ensures var st := AfterNewDev(rec, nv, listing, newDev, env);
      var choice := NewDdebChoice(listing, rec.packageName);
      && Outcome(st.rec) == Outcome(rec)
      && (st.Stop? && st.ret.Ok? ==> st.ret.value in {0, ReturnPpaError, ReturnPpaPackageNotFound})
      && (st == Stop(Ok(0), st.rec) <==> choice.Multiple?)
      && (st == Stop(Ok(ReturnPpaError), st.rec) <==> !choice.Multiple? && !env.aptUpdateOk)
      && (st == Stop(Ok(ReturnPpaPackageNotFound), st.rec) <==> !choice.Multiple? && env.aptUpdateOk && !env.downloadOk)
      && (st.Go? ==> !choice.Multiple? && env.aptUpdateOk && env.downloadOk && st.nv == nv && st.newDev == newDev
                     && st.rec.newDebVersion == rec.newDebVersion && st.rec.newDevName == rec.newDevName)
      && (st.Go? && rec.newDdebName.None? && rec.oldDevName.None? && rec.oldDdebName.None? ==>
            && st.rec.newDdebName.Some? == st.newDdeb
            && st.rec.oldDevName.Some? == st.oldDev && st.rec.oldDdebName.Some? == st.oldDdeb)
      && (st.Go? ==> st.rec.oldDebVersion == Some(st.ov))
  {
    var choice := NewDdebChoice(listing, rec.packageName);
    if !choice.Multiple? && env.aptUpdateOk && env.downloadOk {
      var rec1 := if choice.Found? then rec.(newDdebName := Some(choice.file)) else rec;
      OldSideFacts(rec1, nv, newDev, choice.Found?, env);
    }
  }

  /** The selection stops with -1 exactly on an ambiguous `-dev` package, with 0, 16 or 8 as after the
      new `-dev` choice, and otherwise with an exception; when it goes on, both versions are recorded and,
      for a fresh record, a companion name is recorded exactly when that package was found. */
  lemma SelectionFacts(rec: AbiDiffResult, file: string, listing: seq<string>, env: PackageEnv)
    ensures var st := Selection(rec, file, listing, env);
      var name := rec.packageName;
      && Outcome(st.rec) == Outcome(rec)
      && (st.Stop? && st.ret.Ok? ==> st.ret.value in {-1, 0, ReturnPpaError, ReturnPpaPackageNotFound})
      && (st == Stop(Ok(-1), st.rec) <==>
            VersionField(file).Ok? && name != [] && NewDevChoice(listing, DropTrailingDigit(name)).Multiple?)
      && (st == Stop(Ok(-1), st.rec) ==> st.rec.newDevName == Some(MultipleDetected))
      && (st == Stop(Ok(ReturnPpaError), st.rec) <==> NewSideOk(name, file, listing) && !env.aptUpdateOk)
      && (st == Stop(Ok(ReturnPpaPackageNotFound), st.rec) <==>
            NewSideOk(name, file, listing) && env.aptUpdateOk && !env.downloadOk)
      && (st.Go? ==> NewSideOk(name, file, listing) && env.aptUpdateOk && env.downloadOk)
      && (st.Go? ==> st.rec.oldDebVersion == Some(st.ov) && st.rec.newDebVersion == Some(st.nv))
      && (st.Go? && IsFresh(rec) ==>
            && st.rec.newDevName.Some? == st.newDev && st.rec.newDdebName.Some? == st.newDdeb
            && st.rec.oldDevName.Some? == st.oldDev && st.rec.oldDdebName.Some? == st.oldDdeb)
  {
    var nv := VersionField(file);
    if nv.Ok? && rec.packageName != [] {
      var rec1 := rec.(newDebName := Some(file), newDebVersion := Some(nv.value));
      match NewDevChoice(listing, DropTrailingDigit(rec.packageName))
      case Multiple =>
      case NoExactMatch =>
      case Absent => AfterNewDevFacts(rec1, nv.value, listing, false, env);
      case Found(f) => AfterNewDevFacts(rec1.(newDevName := Some(f)), nv.value, listing, true, env);
    }
  }

  /** The return codes of a package run are the documented ones, `-1` for an ambiguous `-dev` package
      and `0` (the `False` of an ambiguous debug package). As written, with `keep_temp` false no run
      returns a comparison's verdict: what returns is -1, 0, 4, 8 or 16. */
  lemma PackageReturnCodes(rec: AbiDiffResult, file: string, listing: seq<string>, env: PackageEnv, cleanup: Cleanup)
    requires rec.versionCheck.None?
    ensures var r := SinglePackage(rec, file, listing, env, cleanup).0;
      && (r.Ok? ==> r.value in {-1, ReturnAbiNoDiff, ReturnAbiCompatibleDiff, ReturnAbiIncompatibleDiff,
                                ReturnAbiStrippedPackage, ReturnPpaPackageNotFound, ReturnPpaError})
      && (r.Ok? && cleanup == RemoveUndefined ==>
            r.value in {-1, 0, ReturnAbiStrippedPackage, ReturnPpaPackageNotFound, ReturnPpaError})
  {
    SelectionFacts(rec, file, listing, env);
    var st := Selection(rec, file, listing, env);
    if st.Go? {
      CompareFacts(st.rec, st.ov, st.nv, st.oldDev, st.newDev, st.oldDdeb, st.newDdeb, env, cleanup);
    }
  }

  /** `-1` is returned exactly for several `-dev` candidates with more than one of the exact form, and
      the record then says so; a failed package-list update returns 16 and a failed core download 8, each
      exactly when the new side is complete. */
  lemma SelectionCodes(rec: AbiDiffResult, file: string, listing: seq<string>, env: PackageEnv, cleanup: Cleanup)
    requires rec.versionCheck.None?
    ensures var (r, out) := SinglePackage(rec, file, listing, env, cleanup);
      var name := rec.packageName;
      && (r == Ok(-1) <==> VersionField(file).Ok? && name != [] && NewDevChoice(listing, DropTrailingDigit(name)).Multiple?)
      && (r == Ok(-1) ==> out.newDevName == Some(MultipleDetected))
      && (r == Ok(ReturnPpaError) <==> NewSideOk(name, file, listing) && !env.aptUpdateOk)
      && (r == Ok(ReturnPpaPackageNotFound) <==> NewSideOk(name, file, listing) && env.aptUpdateOk && !env.downloadOk)
  {
    AmbiguousCode(rec, file, listing, env, cleanup);
    DownloadCodes(rec, file, listing, env, cleanup);
  }

  lemma AmbiguousCode(rec: AbiDiffResult, file: string, listing: seq<string>, env: PackageEnv, cleanup: Cleanup)
    requires rec.versionCheck.None?
    ensures var (r, out) := SinglePackage(rec, file, listing, env, cleanup);
      var name := rec.packageName;
      && (r == Ok(-1) <==> VersionField(file).Ok? && name != [] && NewDevChoice(listing, DropTrailingDigit(name)).Multiple?)
      && (r == Ok(-1) ==> out.newDevName == Some(MultipleDetected))
  {
    SelectionFacts(rec, file, listing, env);
    var st := Selection(rec, file, listing, env);
    if st.Go? {
      CompareFacts(st.rec, st.ov, st.nv, st.oldDev, st.newDev, st.oldDdeb, st.newDdeb, env, cleanup);
    }
  }

  lemma DownloadCodes(rec: AbiDiffResult, file: string, listing: seq<string>, env: PackageEnv, cleanup: Cleanup)
    requires rec.versionCheck.None?
    ensures var (r, out) := SinglePackage(rec, file, listing, env, cleanup);
      var name := rec.packageName;
      && (r == Ok(ReturnPpaError) <==> NewSideOk(name, file, listing) && !env.aptUpdateOk)
      && (r == Ok(ReturnPpaPackageNotFound) <==> NewSideOk(name, file, listing) && env.aptUpdateOk && !env.downloadOk)
  {
    UpdateCode(rec, file, listing, env, cleanup);
    DownloadCode(rec, file, listing, env, cleanup);
  }

  lemma UpdateCode(rec: AbiDiffResult, file: string, listing: seq<string>, env: PackageEnv, cleanup: Cleanup)
    requires rec.versionCheck.None?
    ensures var r := SinglePackage(rec, file, listing, env, cleanup).0;
      r == Ok(ReturnPpaError) <==> NewSideOk(rec.packageName, file, listing) && !env.aptUpdateOk
  {
    SelectionFacts(rec, file, listing, env);
    var st := Selection(rec, file, listing, env);
    if st.Go? {
      CompareFacts(st.rec, st.ov, st.nv, st.oldDev, st.newDev, st.oldDdeb, st.newDdeb, env, cleanup);
    }
  }

  lemma DownloadCode(rec: AbiDiffResult, file: string, listing: seq<string>, env: PackageEnv, cleanup: Cleanup)
    requires rec.versionCheck.None?
    ensures var r := SinglePackage(rec, file, listing, env, cleanup).0;
      r == Ok(ReturnPpaPackageNotFound) <==> NewSideOk(rec.packageName, file, listing) && env.aptUpdateOk && !env.downloadOk
  {
    SelectionFacts(rec, file, listing, env);
    var st := Selection(rec, file, listing, env);
    if st.Go? {
      CompareFacts(st.rec, st.ov, st.nv, st.oldDev, st.newDev, st.oldDdeb, st.newDdeb, env, cleanup);
    }
  }

  /** A stripped package returns 4 before the remark and the version check are written. */
  lemma StrippedPackage(rec: AbiDiffResult, file: string, listing: seq<string>, env: PackageEnv, cleanup: Cleanup)
    requires rec.versionCheck.None?
    ensures var (r, out) := SinglePackage(rec, file, listing, env, cleanup);
      r == Ok(ReturnAbiStrippedPackage) ==>
        && out.diffResult == Some("STRIPPED-PACKAGE")
        && !Bit(env.status, 0) && Bit(env.status, 1)
        && out.remark == rec.remark && out.versionCheck.None?
  {
    SelectionFacts(rec, file, listing, env);
    var st := Selection(rec, file, listing, env);
    if st.Go? {
      CompareFacts(st.rec, st.ov, st.nv, st.oldDev, st.newDev, st.oldDdeb, st.newDdeb, env, cleanup);
      ClassifySpec(env.status, env.report);
    }
  }

  /** When a fresh record has its version check written, the run got to the comparison: the return value
      is the classification's, the check is the analysis of the two versions recorded under the status
      after escalation, the label is the classification's, and the remark reflects the companion
      packages recorded on each side. */
  lemma ComparisonOutcome(rec: AbiDiffResult, file: string, listing: seq<string>, env: PackageEnv, cleanup: Cleanup)
    requires IsFresh(rec)
    ensures var (r, out) := SinglePackage(rec, file, listing, env, cleanup);
      var c := Classify(env.status, env.report);
      out.versionCheck.Some? ==>
        && c.Classified?
        && cleanup != RemoveUndefined
        && r == Ok(c.ret)
        && out.oldDebVersion.Some? && out.newDebVersion.Some?
        && AnalyzeAbiDiffResult(out.oldDebVersion.value, out.newDebVersion.value, c.status) == Ok(out.versionCheck.value)
        && out.diffResult == c.result
        && out.remark == Remark(None, out.oldDevName.Some?, out.newDevName.Some?, out.oldDdebName.Some?, out.newDdebName.Some?)
        && out.output == (if env.status != 0 then Some(env.report) else None)
  {
    SelectionFacts(rec, file, listing, env);
    var st := Selection(rec, file, listing, env);
    if st.Go? {
      CompareFacts(st.rec, st.ov, st.nv, st.oldDev, st.newDev, st.oldDdeb, st.newDdeb, env, cleanup);
    }
  }

  /** Return values 1 and 2 come only from a completed comparison, and 2 exactly when the analysis saw an
      incompatible change, which includes every escalation. */
  lemma CompatibilityCodes(rec: AbiDiffResult, file: string, listing: seq<string>, env: PackageEnv, cleanup: Cleanup)
    requires IsFresh(rec)
    ensures var (r, out) := SinglePackage(rec, file, listing, env, cleanup);
      var c := Classify(env.status, env.report);
      (r == Ok(ReturnAbiCompatibleDiff) || r == Ok(ReturnAbiIncompatibleDiff)) ==>
        && out.versionCheck.Some? && c.Classified? && cleanup != RemoveUndefined
        && (r == Ok(ReturnAbiIncompatibleDiff) <==> ChangeOf(c.status) == IncompatibleChange)
        && (Escalates(env.status, env.report) ==> r == Ok(ReturnAbiIncompatibleDiff))
  {
    var (r, out) := SinglePackage(rec, file, listing, env, cleanup);
    var c := Classify(env.status, env.report);
    if r == Ok(ReturnAbiCompatibleDiff) || r == Ok(ReturnAbiIncompatibleDiff) {
      SelectionFacts(rec, file, listing, env);
      var st := Selection(rec, file, listing, env);
      assert st.Go?;
      CompareFacts(st.rec, st.ov, st.nv, st.oldDev, st.newDev, st.oldDdeb, st.newDdeb, env, cleanup);
      assert c.Classified? && r == Ok(c.ret);
      IncompatibleReturn(env.status, env.report);
    }
  }

  /** As written, a run that gets to a classified status with `keep_temp` false raises `NameError` at
      lines 598-600, after the label and the remark are recorded and before the version check; with
      `keep_temp` true it never does. */
  lemma TempRemovalRaises(rec: AbiDiffResult, file: string, listing: seq<string>, env: PackageEnv, keepTemp: bool)
    requires rec.versionCheck.None?
    ensures var st := Selection(rec, file, listing, env);
      var (r, out) := SinglePackage(rec, file, listing, env, AsWrittenCleanup(keepTemp));
      var c := Classify(env.status, env.report);
      && (r == Err(NameError(UndefinedTempDir)) <==> st.Go? && c.Classified? && !keepTemp)
      && (r == Err(NameError(UndefinedTempDir)) ==>
            && out.versionCheck.None?
            && out.remark == Remark(st.rec.remark, st.oldDev, st.newDev, st.oldDdeb, st.newDdeb)
            && out.diffResult == (if c.result.Some? then c.result else st.rec.diffResult))
  {
    var st := Selection(rec, file, listing, env);
    var r := SinglePackage(rec, file, listing, env, AsWrittenCleanup(keepTemp)).0;
    if st.Go? {
      SelectionFacts(rec, file, listing, env);
      CompareRemoval(st.rec, st.ov, st.nv, st.oldDev, st.newDev, st.oldDdeb, st.newDdeb, env, AsWrittenCleanup(keepTemp));
    } else {
      SelectionStopErrors(rec, file, listing, env);
      assert r == st.ret;
    }
  }

  /** Corrected, removing the package's own directory: no run raises `NameError`, and every run ends as
      a run that keeps its directory. */
  lemma TempRemovalFixed(rec: AbiDiffResult, file: string, listing: seq<string>, env: PackageEnv, keepTemp: bool)
    requires rec.versionCheck.None?
    ensures SinglePackage(rec, file, listing, env, FixedCleanup(keepTemp)) == SinglePackage(rec, file, listing, env, KeepTemp)
    ensures SinglePackage(rec, file, listing, env, FixedCleanup(keepTemp)).0 != Err(NameError(UndefinedTempDir))
  {
    SelectionStopErrors(rec, file, listing, env);
    var st := Selection(rec, file, listing, env);
    if st.Go? {
      CompareRemoval(st.rec, st.ov, st.nv, st.oldDev, st.newDev, st.oldDdeb, st.newDdeb, env, FixedCleanup(keepTemp));
      CompareCleanupFree(st.rec, st.ov, st.nv, st.oldDev, st.newDev, st.oldDdeb, st.newDdeb, env);
    }
  }

  /** The old side stops only with `IndexError` or the missing-package exception. */
  lemma OldSideStopErrors(rec: AbiDiffResult, nv: string, newDev: bool, newDdeb: bool, env: PackageEnv)
    ensures var st := OldSide(rec, nv, newDev, newDdeb, env);
      st.Stop? && st.ret.Err? ==> st.ret.error.IndexError? || st.ret.error.GenericException?
  {
  }

  /** So does everything after the new `-dev` choice. */
  lemma AfterNewDevStopErrors(rec: AbiDiffResult, nv: string, listing: seq<string>, newDev: bool, env: PackageEnv)
    ensures var st := AfterNewDev(rec, nv, listing, newDev, env);
      st.Stop? && st.ret.Err? ==> st.ret.error.IndexError? || st.ret.error.GenericException?
  {
    var choice := NewDdebChoice(listing, rec.packageName);
    if !choice.Multiple? && env.aptUpdateOk && env.downloadOk {
      var rec1 := if choice.Found? then rec.(newDdebName := Some(choice.file)) else rec;
      OldSideStopErrors(rec1, nv, newDev, choice.Found?, env);
    }
  }

  /** The selection raises only `IndexError` or the missing-package exception. */
  lemma SelectionStopErrors(rec: AbiDiffResult, file: string, listing: seq<string>, env: PackageEnv)
    ensures var st := Selection(rec, file, listing, env);
      st.Stop? && st.ret.Err? ==> st.ret.error.IndexError? || st.ret.error.GenericException?
  {
    var nv := VersionField(file);
    if nv.Ok? && rec.packageName != [] {
      var rec1 := rec.(newDebName := Some(file), newDebVersion := Some(nv.value));
      match NewDevChoice(listing, DropTrailingDigit(rec.packageName))
      case Multiple =>
      case NoExactMatch =>
      case Absent => AfterNewDevStopErrors(rec1, nv.value, listing, false, env);
      case Found(f) => AfterNewDevStopErrors(rec1.(newDevName := Some(f)), nv.value, listing, true, env);
    }
  }

  /** Removing the package's own directory ends the comparison as keeping it does. */
  lemma CompareCleanupFree(rec: AbiDiffResult, ov: string, nv: string, oldDev: bool, newDev: bool,
                           oldDdeb: bool, newDdeb: bool, env: PackageEnv)
    ensures Compare(rec, ov, nv, oldDev, newDev, oldDdeb, newDdeb, env, RemoveOwn) ==
            Compare(rec, ov, nv, oldDev, newDev, oldDdeb, newDdeb, env, KeepTemp)
  {
  }

  /** A classified status returns 2 exactly when the status passed on reports an incompatible change,
      and every escalation does. */
  lemma IncompatibleReturn(status: int, report: string)
    requires Classify(status, report).Classified?
    ensures var c := Classify(status, report);
      && (c.ret == ReturnAbiIncompatibleDiff <==> ChangeOf(c.status) == IncompatibleChange)
      && (Escalates(status, report) ==> c.ret == ReturnAbiIncompatibleDiff)
  {
    ClassifySpec(status, report);
    ClassifiedStatus(status, report, 3);
  }

  // ---------------------------------------------------------------------------------------------
  // single_repo_deb_abi_checker and multiple_repo_deb_abi_checker (lines 166-313)
  // ---------------------------------------------------------------------------------------------

  /** The record a repository run creates for a package before checking it. */
  function Fresh(name: string, repo: string): (r: AbiDiffResult)
    ensures IsFresh(r) && r.packageName == name && r.repoName == Some(repo) && r.versionCheck.None?
  {
    NewResult(name).(repoName := Some(repo))
  }

  /** `single_package_abi_checker` as the repository loop calls it: on a record and a core file. */
  type Runner = (AbiDiffResult, string) -> (Result<int>, AbiDiffResult)

  /** The package run inside a repository directory with listing `listing` and world `env`. */
  function PackageRunner(listing: seq<string>, env: string -> PackageEnv, cleanup: Cleanup): Runner
  {
    (rec, file) => SinglePackage(rec, file, listing, env(file), cleanup)
  }

  /** What one core file of a repository returns; it does not depend on the records collected so far. */
  function PackageReturn(repo: string, file: string, run: Runner): Result<int>
  {
    run(Fresh(PackageName(file), repo), file).0
  }

  type Results = Dict<string, AbiDiffResult>

  /** One iteration of the repository loop: record a fresh result under the package name, run the
      package on it and store what the run left, also when it raised. */
  function PackageStep(results: Results, repo: string, file: string, run: Runner): (r: (Result<int>, Results))
    requires results.Valid()
    ensures r.1.Valid() && r.0 == PackageReturn(repo, file, run)
    ensures r.1.keys == if PackageName(file) in results.items then results.keys else results.keys + [PackageName(file)]
    ensures forall name :: name in r.1.keys <==> name in results.keys || name == PackageName(file)
  {
    var name := PackageName(file);
    var d := Put(results, name, Fresh(name, repo));
    var out := run(d.items[name], file);
    (out.0, Put(d, name, out.1))
  }

  /** One iteration of the repository loop after the earlier ones: nothing once a package has raised,
      otherwise the package step, OR-ing its return into the running status. */
  function RepoStep(prev: (Result<int>, Results), repo: string, file: string, run: Runner): (r: (Result<int>, Results))
    requires prev.1.Valid()
    ensures r.1.Valid()
  {
    if prev.0.Err? then prev
    else
      var step := PackageStep(prev.1, repo, file, run);
      if step.0.Err? then step else (Ok(Or(prev.0.value, step.0.value)), step.1)
  }

  /** The repository loop over `files`: the OR of the returns, stopping at the first exception. */
  function RepoSpec(results: Results, repo: string, files: seq<string>, run: Runner)
    : (r: (Result<int>, Results))
    requires results.Valid()
    ensures r.1.Valid()
  {
    if files == [] then (Ok(0), results)
    else RepoStep(RepoSpec(results, repo, files[..|files| - 1], run), repo, files[|files| - 1], run)
  }

  /** One more file extends the loop by one step. */
  lemma RepoSpecNext(results: Results, repo: string, files: seq<string>, i: nat, run: Runner)
    requires results.Valid() && i < |files|
    ensures RepoSpec(results, repo, files[..i + 1], run) == RepoStep(RepoSpec(results, repo, files[..i], run), repo, files[i], run)
  {
    PrefixOfPrefix(files, i);
  }

  /** A step adds the package name to the records, unless the loop had already raised. */
  lemma RepoStepKeys(prev: (Result<int>, Results), repo: string, file: string, run: Runner)
    requires prev.1.Valid()
    ensures forall name :: name in RepoStep(prev, repo, file, run).1.keys <==>
      name in prev.1.keys || (prev.0.Ok? && name == PackageName(file))
  {
    if prev.0.Ok? {
      var step := PackageStep(prev.1, repo, file, run);
      assert forall name :: name in step.1.keys <==> name in prev.1.keys || name == PackageName(file);
    }
  }

  /** Once the loop has raised it stays raised. */
  lemma {:induction false} RepoErrorSticks(results: Results, repo: string, files: seq<string>, k: nat,
                                           run: Runner)
    requires results.Valid() && k <= |files|
    requires RepoSpec(results, repo, files[..k], run).0.Err?
    ensures RepoSpec(results, repo, files, run) == RepoSpec(results, repo, files[..k], run)
  {
    if k < |files| {
      assert files[..|files| - 1][..k] == files[..k];
      RepoErrorSticks(results, repo, files[..|files| - 1], k, run);
    } else {
      assert files[..k] == files;
    }
  }

  /** The returns of the packages of `files`, in order. */
  function Returns(repo: string, files: seq<string>, run: Runner): (rs: seq<Result<int>>)
    ensures |rs| == |files| && forall i :: 0 <= i < |files| ==> rs[i] == PackageReturn(repo, files[i], run)
  {
    seq(|files|, i requires 0 <= i < |files| => PackageReturn(repo, files[i], run))
  }

  /** `final_ret |= ret` over a sequence of returns, with the first exception propagating. */
  function Combine(rs: seq<Result<int>>): Result<int>
  {
    if rs == [] then Ok(0)
    else
      var prev := Combine(rs[..|rs| - 1]);
      if prev.Err? then prev
      else if rs[|rs| - 1].Err? then rs[|rs| - 1]
      else Ok(Or(prev.value, rs[|rs| - 1].value))
  }

  /** The repository loop's result is the combination of its packages' returns. */
  lemma {:induction false} RepoCombine(results: Results, repo: string, files: seq<string>, run: Runner)
    requires results.Valid()
    ensures RepoSpec(results, repo, files, run).0 == Combine(Returns(repo, files, run))
  {
    if files != [] {
      var p := files[..|files| - 1];
      RepoCombine(results, repo, p, run);
      ReturnsPrefix(repo, files, run);
    }
  }

  lemma ReturnsPrefix(repo: string, files: seq<string>, run: Runner)
    requires files != []
    ensures Returns(repo, files, run)[..|files| - 1] == Returns(repo, files[..|files| - 1], run)
  {
  }

  /** The combination succeeds exactly when every return does, and then a bit is set exactly when some
      return has it and it is negative exactly when some return is; otherwise it is the first exception. */
  lemma {:induction false} CombineOutcome(rs: seq<Result<int>>, k: nat)
    ensures var r := Combine(rs);
      && (r.Ok? <==> forall i :: 0 <= i < |rs| ==> rs[i].Ok?)
      && (r.Ok? ==> (Bit(r.value, k) <==> exists i :: 0 <= i < |rs| && rs[i].Ok? && Bit(rs[i].value, k)))
      && (r.Ok? ==> (r.value < 0 <==> exists i :: 0 <= i < |rs| && rs[i].Ok? && rs[i].value < 0))
      && (r.Err? ==> exists i :: 0 <= i < |rs| && r == rs[i] && forall j :: 0 <= j < i ==> rs[j].Ok?)
  {
    if rs == [] {
      BitZero(k);
    } else {
      var p := rs[..|rs| - 1];
      var last := rs[|rs| - 1];
      CombineOutcome(p, k);
      assert forall i :: 0 <= i < |p| ==> p[i] == rs[i];
      var prev := Combine(p);
      if prev.Ok? && last.Ok? {
        BitOr(prev.value, last.value, k);
        OrSign(prev.value, last.value);
        var r := Combine(rs);
        if Bit(r.value, k) && !Bit(last.value, k) {
          var i :| 0 <= i < |p| && p[i].Ok? && Bit(p[i].value, k);
          assert rs[i] == p[i];
        }
        if r.value < 0 && last.value >= 0 {
          var i :| 0 <= i < |p| && p[i].Ok? && p[i].value < 0;
          assert rs[i] == p[i];
        }
        if exists i :: 0 <= i < |rs| && rs[i].Ok? && Bit(rs[i].value, k) {
          var i :| 0 <= i < |rs| && rs[i].Ok? && Bit(rs[i].value, k);
          if i < |p| {
            assert p[i] == rs[i];
          }
        }
        if exists i :: 0 <= i < |rs| && rs[i].Ok? && rs[i].value < 0 {
          var i :| 0 <= i < |rs| && rs[i].Ok? && rs[i].value < 0;
          if i < |p| {
            assert p[i] == rs[i];
          }
        }
      } else if prev.Err? {
        var i :| 0 <= i < |p| && prev == p[i] && forall j :: 0 <= j < i ==> p[j].Ok?;
        assert rs[i] == p[i];
      }
    }
  }

  /** The repository result: it succeeds exactly when every package returns, and then a bit is set
      exactly when some package's return has it and the result is negative exactly when some return is;
      otherwise it is the first exception raised. */
  lemma RepoOutcome(results: Results, repo: string, files: seq<string>, run: Runner, k: nat)
    requires results.Valid()
    ensures var r := RepoSpec(results, repo, files, run).0;
      && (r.Ok? <==> forall i :: 0 <= i < |files| ==> PackageReturn(repo, files[i], run).Ok?)
      && (r.Ok? ==> (Bit(r.value, k) <==> exists i :: 0 <= i < |files| && PackageReturn(repo, files[i], run).Ok? &&
                                                      Bit(PackageReturn(repo, files[i], run).value, k)))
      && (r.Ok? ==> (r.value < 0 <==> exists i :: 0 <= i < |files| && PackageReturn(repo, files[i], run).Ok? &&
                                                 PackageReturn(repo, files[i], run).value < 0))
      && (r.Err? ==> exists i :: 0 <= i < |files| && r == PackageReturn(repo, files[i], run) &&
                                 forall j :: 0 <= j < i ==> PackageReturn(repo, files[j], run).Ok?)
  {
    RepoCombine(results, repo, files, run);
    CombineOutcome(Returns(repo, files, run), k);
  }

  /** An ambiguous `-dev` package anywhere in a repository makes its whole result -1. */
  lemma RepoMinusOne(results: Results, repo: string, files: seq<string>, run: Runner, i: nat)
    requires results.Valid() && i < |files| && PackageReturn(repo, files[i], run) == Ok(-1)
    requires RepoSpec(results, repo, files, run).0.Ok?
    ensures RepoSpec(results, repo, files, run).0 == Ok(-1)
  {
    RepoCombine(results, repo, files, run);
    CombineMinusOne(Returns(repo, files, run), i);
  }

  /** A `-1` among successful returns makes their combination `-1`. */
  lemma CombineMinusOne(rs: seq<Result<int>>, i: nat)
    requires i < |rs| && rs[i] == Ok(-1) && Combine(rs).Ok?
    ensures Combine(rs) == Ok(-1)
  {
    var r := Combine(rs);
    CombineOutcome(rs, 0);
    forall k: nat ensures Bit(r.value, k) {
      CombineOutcome(rs, k);
      BitComplement(0, k);
      BitZero(k);
    }
    AllBitsMinusOne(r.value);
  }

  /** The package names of `files`, in order. */
  function Names(files: seq<string>): (ns: seq<string>)
    ensures |ns| == |files| && forall i :: 0 <= i < |files| ==> ns[i] == PackageName(files[i])
  {
    seq(|files|, i requires 0 <= i < |files| => PackageName(files[i]))
  }

  /** After the loop every package of a successful run has a record, no record is dropped, and the
      only names added are those of the packages run. */
  lemma {:induction false} RepoRecords(results: Results, repo: string, files: seq<string>, run: Runner)
    requires results.Valid()
    ensures var d := RepoSpec(results, repo, files, run).1;
      && (RepoSpec(results, repo, files, run).0.Ok? ==> forall name :: name in Names(files) ==> name in d.keys)
      && (forall name :: name in d.keys ==> name in results.keys || name in Names(files))
      && (forall name :: name in results.keys ==> name in d.keys)
  {
    if files != [] {
      var p := files[..|files| - 1];
      var last := files[|files| - 1];
      RepoRecords(results, repo, p, run);
      RepoStepKeys(RepoSpec(results, repo, p, run), repo, last, run);
      NamesSnoc(files);
    }
  }

  lemma NamesSnoc(files: seq<string>)
    requires files != []
    ensures Names(files) == Names(files[..|files| - 1]) + [PackageName(files[|files| - 1])]
  {
  }

  /** A directory of the multi-repository run: whether it is a directory, its listing, and the package
      run inside it (`PackageRunner` of its listing and world). */
  datatype Folder = Folder(name: string, isDir: bool, listing: seq<string>, run: Runner)

  /** What a repository directory returns, whatever was recorded before it. */
  function RepoReturn(f: Folder): Result<int>
  {
    RepoSpec(EmptyDict(), f.name, CoreFiles(f.listing), f.run).0
  }

  /** The repository result does not depend on the records collected before. */
  lemma {:induction false} RepoReturnIndependent(results: Results, repo: string, files: seq<string>,
                                                 run: Runner)
    requires results.Valid()
    ensures RepoSpec(results, repo, files, run).0 == RepoSpec(EmptyDict(), repo, files, run).0
  {
    if files != [] {
      RepoReturnIndependent(results, repo, files[..|files| - 1], run);
    }
  }

  /** One entry of the multi-repository loop: a directory runs the repository loop and an exception there
      becomes exit status -1; anything else, and every entry after an exception, changes nothing. */
  function MultiStep(prev: (Result<int>, Results), f: Folder): (r: (Result<int>, Results))
    requires prev.1.Valid()
    ensures r.1.Valid()
  {
    if prev.0.Err? || !f.isDir then prev
    else
      var step := RepoSpec(prev.1, f.name, CoreFiles(f.listing), f.run);
      if step.0.Err? then (Err(Exit(-1)), step.1) else (Ok(Or(prev.0.value, step.0.value)), step.1)
  }

  /** The multi-repository loop: directories only, the OR of the repository results, and an exit with
      status -1 on the first exception. */
  function MultiSpec(results: Results, folders: seq<Folder>): (r: (Result<int>, Results))
    requires results.Valid()
    ensures r.1.Valid()
  {
    if folders == [] then (Ok(0), results)
    else MultiStep(MultiSpec(results, folders[..|folders| - 1]), folders[|folders| - 1])
  }

  /** One more entry extends the multi-repository loop by one step. */
  lemma MultiSpecNext(results: Results, folders: seq<Folder>, i: nat)
    requires results.Valid() && i < |folders|
    ensures MultiSpec(results, folders[..i + 1]) == MultiStep(MultiSpec(results, folders[..i]), folders[i])
  {
    PrefixOfPrefix(folders, i);
  }

  lemma {:induction false} MultiErrorSticks(results: Results, folders: seq<Folder>, k: nat)
    requires results.Valid() && k <= |folders|
    requires MultiSpec(results, folders[..k]).0.Err?
    ensures MultiSpec(results, folders) == MultiSpec(results, folders[..k])
  {
    if k < |folders| {
      assert folders[..|folders| - 1][..k] == folders[..k];
      MultiErrorSticks(results, folders[..|folders| - 1], k);
    } else {
      assert folders[..k] == folders;
    }
  }

  /** What each entry contributes to the multi-repository result: a directory its repository result,
      anything else nothing (`0`). */
  function DirReturns(folders: seq<Folder>): (rs: seq<Result<int>>)
    ensures |rs| == |folders|
    ensures forall i :: 0 <= i < |folders| ==> rs[i] == if folders[i].isDir then RepoReturn(folders[i]) else Ok(0)
  {
    seq(|folders|, i requires 0 <= i < |folders| => if folders[i].isDir then RepoReturn(folders[i]) else Ok(0))
  }

  lemma DirReturnsPrefix(folders: seq<Folder>)
    requires folders != []
    ensures DirReturns(folders)[..|folders| - 1] == DirReturns(folders[..|folders| - 1])
  {
  }

  /** The multi-repository loop combines the directories' results, turning an exception into exit -1. */
  lemma {:induction false} MultiCombine(results: Results, folders: seq<Folder>)
    requires results.Valid()
    ensures var c := Combine(DirReturns(folders));
      MultiSpec(results, folders).0 == if c.Err? then Err(Exit(-1)) else c
  {
    if folders != [] {
      var p := folders[..|folders| - 1];
      var f := folders[|folders| - 1];
      MultiCombine(results, p);
      DirReturnsPrefix(folders);
      var prev := MultiSpec(results, p);
      if prev.0.Ok? && !f.isDir {
        OrUnits(prev.0.value);
      } else if prev.0.Ok? {
        RepoReturnIndependent(prev.1, f.name, CoreFiles(f.listing), f.run);
      }
    }
  }

  /** The multi-repository result: an exception in any directory becomes an exit with status -1;
      otherwise a bit is set exactly when some directory's result has it. Non-directories are skipped. */
  lemma MultiOutcome(results: Results, folders: seq<Folder>, k: nat)
    requires results.Valid()
    ensures var r := MultiSpec(results, folders).0;
      && (r.Err? <==> exists i :: 0 <= i < |folders| && folders[i].isDir && RepoReturn(folders[i]).Err?)
      && (r.Err? ==> r == Err(Exit(-1)))
      && (r.Ok? ==> (Bit(r.value, k) <==> exists i :: 0 <= i < |folders| && folders[i].isDir && RepoReturn(folders[i]).Ok? &&
                                                      Bit(RepoReturn(folders[i]).value, k)))
  {
    var rs := DirReturns(folders);
    MultiCombine(results, folders);
    CombineOutcome(rs, k);
    BitZero(k);
    if exists i :: 0 <= i < |rs| && rs[i].Err? {
      var i :| 0 <= i < |rs| && rs[i].Err?;
      assert folders[i].isDir && RepoReturn(folders[i]).Err?;
    }
    if exists i :: 0 <= i < |rs| && rs[i].Ok? && Bit(rs[i].value, k) {
      var i :| 0 <= i < |rs| && rs[i].Ok? && Bit(rs[i].value, k);
      assert folders[i].isDir && RepoReturn(folders[i]).Ok? && Bit(RepoReturn(folders[i]).value, k);
    }
    if exists i :: 0 <= i < |folders| && folders[i].isDir && RepoReturn(folders[i]).Ok? && Bit(RepoReturn(folders[i]).value, k) {
      var i :| 0 <= i < |folders| && folders[i].isDir && RepoReturn(folders[i]).Ok? && Bit(RepoReturn(folders[i]).value, k);
      assert rs[i].Ok? && Bit(rs[i].value, k);
    }
    if exists i :: 0 <= i < |folders| && folders[i].isDir && RepoReturn(folders[i]).Err? {
      var i :| 0 <= i < |folders| && folders[i].isDir && RepoReturn(folders[i]).Err?;
      assert rs[i].Err?;
    }
  }

  /** `global_checker_results` and the two repository loops over it. */
  class Checker {
    var results: Results

    ghost predicate Valid()
      reads this
    {
      results.Valid()
    }

    constructor ()
      ensures Valid() && results.keys == []
    {
      results := EmptyDict();
    }

    /** `single_repo_deb_abi_checker`: no core file returns 0 at once; otherwise the loop, with `run` the
        package check of this directory (`PackageRunner(listing, env, cleanup)`). */
    method SingleRepo(repo: string, listing: seq<string>, run: Runner) returns (r: Result<int>)
      requires Valid()
      modifies this
      ensures Valid()
      ensures (r, results) == RepoSpec(old(results), repo, CoreFiles(listing), run)
    {
      var files := CoreFiles(listing);
      if files == [] {
        return Ok(ReturnAbiNoDiff);
      }
      var finalRet := 0;
      var i := 0;
      while i < |files|
        invariant 0 <= i <= |files| && results.Valid()
        invariant (Ok(finalRet), results) == RepoSpec(old(results), repo, files[..i], run)
      {
        RepoSpecNext(old(results), repo, files, i, run);
        var file := files[i];
        var name := PackageName(file);
        ghost var before := results;
        results := Put(results, name, Fresh(name, repo));
        var out := run(results.items[name], file);
        results := Put(results, name, out.1);
        assert (out.0, results) == PackageStep(before, repo, file, run);
        if out.0.Err? {
          RepoErrorSticks(old(results), repo, files, i + 1, run);
          return out.0;
        }
        finalRet := Or(finalRet, out.0.value);
        i := i + 1;
      }
      assert files[..i] == files;
      r := Ok(finalRet);
    }

    /** `multiple_repo_deb_abi_checker`: every directory in turn, `sys.exit(-1)` on an exception. */
    method MultipleRepo(folders: seq<Folder>) returns (r: Result<int>)
      requires Valid()
      modifies this
      ensures Valid()
      ensures (r, results) == MultiSpec(old(results), folders)
    {
      var finalRet := 0;
      var i := 0;
      while i < |folders|
        invariant 0 <= i <= |folders| && results.Valid()
        invariant (Ok(finalRet), results) == MultiSpec(old(results), folders[..i])
      {
        MultiSpecNext(old(results), folders, i);
        var f := folders[i];
        if f.isDir {
          var ret := SingleRepo(f.name, f.listing, f.run);
          if ret.Err? {
            MultiErrorSticks(old(results), folders, i + 1);
            return Err(Exit(-1));
          }
          finalRet := Or(finalRet, ret.value);
        }
        i := i + 1;
      }
      assert folders[..i] == folders;
      r := Ok(finalRet);
    }
  }
}
