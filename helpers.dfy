/** `ubuntu/helpers.py`: looking for (and appending) a line in a text file, reading a `.manifest` file
    of packages and versions, and choosing which packages `pull_debs_wget` downloads. */
module Helpers {

  import opened Wrappers
  import opened Collections
  import opened Text

  // ---------------------------------------------------------------------------------------------
  // check_and_append_line_in_file (lines 37-67)
  // ---------------------------------------------------------------------------------------------

  /** Whether some line equals `target` once both are stripped. */
  predicate HasLine(lines: seq<string>, target: string)
  {
    exists i :: 0 <= i < |lines| && Strip(lines[i]) == Strip(target)
  }

  /** The contents of an existing file after the call, as reading it back gives them: the appended text
      is taken as written, so carriage returns in it are not translated. */
  function AfterCheck(contents: string, target: string, appendIfMissing: bool): string
  {
    if !HasLine(ReadLines(contents), target) && appendIfMissing then contents + "\n" + target + "\n"
    else contents
  }

  /** A text file: whether it exists, and what it holds. */
  class TextFile {
    var present: bool
    var contents: string

    constructor (present: bool, contents: string)
      ensures this.present == present && this.contents == contents
    {
      this.present := present;
      this.contents := contents;
    }

    /** `check_and_append_line_in_file(file_path, line_to_check, append_if_missing)`: a missing file
        ends the program with status 1; otherwise the result says whether the line is there or was
        appended. */
    method CheckAndAppendLine(target: string, appendIfMissing: bool) returns (r: Result<bool>)
      modifies this
      ensures present == old(present)
      ensures !old(present) ==> r == Err(Exit(1)) && contents == old(contents)
      ensures old(present) ==> r == Ok(HasLine(ReadLines(old(contents)), target) || appendIfMissing)
      ensures old(present) ==> contents == AfterCheck(old(contents), target, appendIfMissing)
    {
      if !present {
        return Err(Exit(1));
      }
      var lines := ReadLines(contents);
      for i := 0 to |lines|
        invariant forall j :: 0 <= j < i ==> Strip(lines[j]) != Strip(target)
      {
        if Strip(lines[i]) == Strip(target) {
          return Ok(true);
        }
      }
      if appendIfMissing {
        contents := contents + "\n" + target + "\n";
        return Ok(true);
      }
      return Ok(false);
    }
  }

  /** After a call that may append, the file holds the line (when the line is a single line with no
      carriage return, which reading the file back would turn into a line break). */
  lemma AfterCheckHasLine(contents: string, target: string)
    requires '\n' !in target && '\r' !in target
    ensures HasLine(ReadLines(AfterCheck(contents, target, true)), target)
  {
    if !HasLine(ReadLines(contents), target) {
      var head := contents + "\n";
      assert head[|head| - 1] == '\n';
      assert contents + "\n" + target + "\n" == head + (target + "\n");
      ReadLinesAppend(head, target + "\n");
      ReadLinesOne(target);
      var lines := ReadLines(head + (target + "\n"));
      assert lines[|lines| - 1] == target + "\n";
      StripSnocSpace(target, '\n');
      assert target + "\n" == target + ['\n'];
    }
  }

  /** A second call changes nothing more: the file is only ever appended to once (for a single line
      with no carriage return). */
  lemma AfterCheckIdempotent(contents: string, target: string, appendIfMissing: bool)
    requires '\n' !in target && '\r' !in target
    ensures AfterCheck(AfterCheck(contents, target, appendIfMissing), target, appendIfMissing) ==
            AfterCheck(contents, target, appendIfMissing)
    ensures StartsWith(AfterCheck(contents, target, appendIfMissing), contents)
  {
    var once := AfterCheck(contents, target, appendIfMissing);
    if appendIfMissing {
      AfterCheckHasLine(contents, target);
    }
    assert once[..|contents|] == contents;
  }

  // ---------------------------------------------------------------------------------------------
  // parse_debs_manifest (lines 69-90)
  // ---------------------------------------------------------------------------------------------

  /** One entry of the manifest: `{'package': ..., 'version': ...}`. */
  datatype DebEntry = DebEntry(package: string, version: Option<string>)

  /** The end of `str(Path(p))`: pathlib drops a trailing `/` and a final `.` component, so `x/` and
      `x/.` both become `x`. */
  function StripDirMarks(p: string): (r: string)
    ensures |r| <= |p|
    decreases |p|
  {
    if |p| > 1 && p[|p| - 1] == '/' then StripDirMarks(p[..|p| - 1])
    else if |p| > 1 && p[|p| - 2..] == "/." then StripDirMarks(p[..|p| - 1])
    else p
  }

  /** A path ending in neither `/` nor `.` is printed by pathlib with the same ending. */
  lemma PlainEnding(p: string)
    requires p != [] && p[|p| - 1] != '/' && p[|p| - 1] != '.'
    ensures StripDirMarks(p) == p
  {
  }

  /** `Path(p).name`: the last component of the path pathlib prints. */
  function PathName(p: string): string
  {
    var t := StripDirMarks(p);
    t[LastIndexOf(t, '/') + 1..]
  }

  /** Lines 80-86 for one line: nothing for a blank or `#` line, else its first tab field and the
      second one if there is one. */
  function EntryOf(line: string): (r: seq<DebEntry>)
    ensures |r| <= 1
  {
    var s := Strip(line);
    if s == [] || s[0] == '#' then []
    else
      var parts := SplitChar(s, '\t');
      [DebEntry(parts[0], if |parts| > 1 then Some(parts[1]) else None)]
  }

  /** The entries of all lines, in order. */
  function Entries(lines: seq<string>): seq<DebEntry>
  {
    FlatMap(lines, EntryOf)
  }

  /** What `parse_debs_manifest` returns, with `isFile` for `Path.is_file` (line 75), `rawIsFile` for
      `os.path.isfile` on the path as given (line 77) and the file's contents. The two tests differ for
      a path with a trailing `/` or `/.`: pathlib drops the ending and finds the file, while the system
      finds no directory of that name, so lines 88-90 return `None`. */
  function DebsManifest(path: string, isFile: bool, rawIsFile: bool, contents: string): Result<Option<seq<DebEntry>>>
  {
    if !isFile || !EndsWith(PathName(path), ".manifest") then
      Err(ValueError("Provided manifest path '" + StripDirMarks(path) + "' is not a valid '.manifest' file."))
    else if !rawIsFile then Ok(None)
    else Ok(Some(Entries(ReadLines(contents))))
  }

  /** Lines 80-86 for one line. */
  method ReadEntry(line: string) returns (found: seq<DebEntry>)
    ensures found == EntryOf(line)
  {
    var s := Strip(line);
    found := [];
    if s != [] && s[0] != '#' {
      var parts := SplitChar(s, '\t');
      found := [DebEntry(parts[0], if |parts| > 1 then Some(parts[1]) else None)];
    }
  }

  /** Lines 69-90. */
  method ParseDebsManifest(path: string, isFile: bool, rawIsFile: bool, contents: string)
    returns (r: Result<Option<seq<DebEntry>>>)
    ensures r == DebsManifest(path, isFile, rawIsFile, contents)
  {
    if !isFile || !EndsWith(PathName(path), ".manifest") {
      return Err(ValueError("Provided manifest path '" + StripDirMarks(path) + "' is not a valid '.manifest' file."));
    }
    if !rawIsFile {
      return Ok(None);
    }
    var lines := ReadLines(contents);
    var debs: seq<DebEntry> := [];
    for i := 0 to |lines|
      invariant debs == Entries(lines[..i])
    {
      FlatMapNext(lines, EntryOf, i);
      var found := ReadEntry(lines[i]);
      debs := debs + found;
    }
    assert lines[..|lines|] == lines;
    return Ok(Some(debs));
  }

  /** The line an entry is written as. */
  function EntryLine(e: DebEntry): string
  {
    if e.version.Some? then e.package + "\t" + e.version.value else e.package
  }

  /** A name or version as it appears in a manifest: not empty, without whitespace. */
  predicate IsField(s: string)
  {
    s != [] && NoSpace(s)
  }

  /** Reading back a written entry gives the entry. */
  lemma EntryRoundTrip(e: DebEntry)
    requires IsField(e.package) && e.package[0] != '#'
    requires e.version.Some? ==> IsField(e.version.value)
    ensures EntryOf(EntryLine(e)) == [e]
  {
    var line := EntryLine(e);
    assert NoSpace(e.package) ==> '\t' !in e.package;
    if e.version.Some? {
      var v := e.version.value;
      assert '\t' !in v;
      assert line[0] == e.package[0];
      assert !IsSpace(line[0]) && !IsSpace(line[|line| - 1]);
      StripKeepsEnds(line);
      var k := |e.package|;
      assert line[k] == '\t' && line[..k] == e.package && line[k + 1..] == v;
      SplitCharAt(line, '\t', k);
      SplitCharNone(v, '\t');
    } else {
      SplitCharNone(e.package, '\t');
    }
  }

  /** A text whose ends are not spaces is its own strip. */
  lemma StripKeepsEnds(s: string)
    requires s != [] && !IsSpace(s[0]) && !IsSpace(s[|s| - 1])
    ensures Strip(s) == s
  {
  }

  /** Every entry comes from a kept line: its package is the line's text before the first tab, not
      empty and not a comment, and it has a version exactly when the line holds a tab. */
  lemma EntrySound(line: string, e: DebEntry)
    requires e in EntryOf(line)
    ensures e.package != [] && e.package[0] != '#' && '\t' !in e.package
    ensures StartsWith(Strip(line), e.package)
    ensures e.version.Some? <==> '\t' in Strip(line)
    ensures e.version.Some? ==> '\t' !in e.version.value
  {
    var s := Strip(line);
    var parts := SplitChar(s, '\t');
    SplitCharFirst(s, '\t');
    SplitCharSplits(s, '\t');
    assert s[0] != '\t';
    assert parts[0] == [s[0]] + SplitChar(s[1..], '\t')[0];
    assert e.package == parts[0];
    assert e.package[0] == s[0];
    if |parts| > 1 {
      var k := IndexWhere(s, x => x == '\t');
      assert s[..k] == s[..k];
      SplitCharAt(s, '\t', k);
      SplitCharFirst(s[k + 1..], '\t');
    }
  }

  /** The entries are those of the kept lines, one each, in file order. */
  lemma EntriesFromLines(lines: seq<string>, e: DebEntry)
    ensures e in Entries(lines) <==> exists i :: 0 <= i < |lines| && EntryOf(lines[i]) == [e]
  {
    FlatMapMembers(lines, EntryOf, e);
    forall i | 0 <= i < |lines| ensures e in EntryOf(lines[i]) <==> EntryOf(lines[i]) == [e] {
    }
  }

  // ---------------------------------------------------------------------------------------------
  // pull_debs_wget (lines 404-457)
  // ---------------------------------------------------------------------------------------------

  /** Lines 431-435 for one line: the first two whitespace fields, if there are two. */
  function VersionLine(line: string): Option<(string, string)>
  {
    if Strip(line) == [] then None
    else
      var parts := SplitWs(line);
      if |parts| >= 2 then Some((parts[0], parts[1])) else None
  }

  /** Line 436 over the lines so far: later lines override the version, a name keeps its first place. */
  function VersionMapOf(lines: seq<string>): (m: Dict<string, string>)
    ensures m.Valid()
  {
    PutAll(MapSeq(lines, VersionLine))
  }

  /** Lines 425-436: `version_map` for the manifest text. */
  function VersionMap(text: string): (m: Dict<string, string>)
    ensures m.Valid()
  {
    VersionMapOf(SplitLines(Strip(text)))
  }

  lemma VersionMapNext(lines: seq<string>, i: nat)
    requires i < |lines|
    ensures VersionMapOf(lines[..i + 1]) ==
            var e := VersionLine(lines[i]);
            if e.None? then VersionMapOf(lines[..i]) else Put(VersionMapOf(lines[..i]), e.value.0, e.value.1)
  {
    PrefixOfPrefix(lines, i);
    PutAllSnoc(MapSeq(lines[..i], VersionLine), VersionLine(lines[i]));
  }

  /** Lines 431-435 for one line. */
  method ReadVersionLine(line: string) returns (entry: Option<(string, string)>)
    ensures entry == VersionLine(line)
  {
    entry := None;
    if Strip(line) == [] {
      return;
    }
    var parts := SplitWs(line);
    if |parts| >= 2 {
      entry := Some((parts[0], parts[1]));
    }
  }

  /** Lines 425-436. */
  method BuildVersionMap(text: string) returns (m: Dict<string, string>)
    ensures m == VersionMap(text)
  {
    var lines := SplitLines(Strip(text));
    m := EmptyDict();
    for i := 0 to |lines|
      invariant m == VersionMapOf(lines[..i])
    {
      VersionMapNext(lines, i);
      var entry := ReadVersionLine(lines[i]);
      if entry.Some? {
        m := Put(m, entry.value.0, entry.value.1);
      }
    }
    assert lines[..|lines|] == lines;
  }

  /** Whether line `i` names `name`. */
  predicate Names(lines: seq<string>, i: int, name: string)
    requires 0 <= i < |lines|
  {
    VersionLine(lines[i]).Some? && VersionLine(lines[i]).value.0 == name
  }

  /** A name is in the map exactly when some line names it, and its version is that of the last such
      line. */
  lemma VersionMapLatest(lines: seq<string>, name: string)
    ensures name in VersionMapOf(lines).items <==> exists i :: 0 <= i < |lines| && Names(lines, i, name)
    ensures name in VersionMapOf(lines).items ==>
              exists i :: 0 <= i < |lines| && VersionLine(lines[i]) == Some((name, VersionMapOf(lines).items[name])) &&
                          forall j :: i < j < |lines| ==> !Names(lines, j, name)
  {
    var entries := MapSeq(lines, VersionLine);
    forall i | 0 <= i < |lines| ensures entries[i] == VersionLine(lines[i]) {
      MapSeqAt(lines, VersionLine, i);
    }
    assert forall i :: 0 <= i < |lines| ==> (Sets(entries, i, name) <==> Names(lines, i, name));
    PutAllKeys(entries, name);
    if name in VersionMapOf(lines).items {
      PutAllLatest(entries, name);
    }
  }

  /** Every name in the map is a non-empty field. */
  lemma {:induction false} VersionMapNames(lines: seq<string>, name: string)
    requires name in VersionMapOf(lines).items
    ensures IsField(name)
  {
    VersionMapLatest(lines, name);
    var i :| 0 <= i < |lines| && Names(lines, i, name);
    assert SplitWs(lines[i])[0] == name;
  }

  /** The first name, in map order, that starts with `prefix`. */
  function SelectFor(names: seq<string>, prefix: string): Option<string>
  {
    if names == [] then None
    else if StartsWith(names[0], prefix) then Some(names[0])
    else SelectFor(names[1..], prefix)
  }

  /** `SelectFor` finds the first name with the prefix, and nothing when no name has it. */
  lemma {:induction false} SelectForFirst(names: seq<string>, prefix: string)
    ensures SelectFor(names, prefix).None? <==> forall i :: 0 <= i < |names| ==> !StartsWith(names[i], prefix)
    ensures SelectFor(names, prefix).Some? ==>
              exists i :: 0 <= i < |names| && names[i] == SelectFor(names, prefix).value &&
                          StartsWith(names[i], prefix) && forall j :: 0 <= j < i ==> !StartsWith(names[j], prefix)
  {
    if names != [] && !StartsWith(names[0], prefix) {
      SelectForFirst(names[1..], prefix);
      assert forall i :: 1 <= i < |names| ==> names[i] == names[1..][i - 1];
      if SelectFor(names, prefix).Some? {
        var i :| 0 <= i < |names[1..]| && names[1..][i] == SelectFor(names, prefix).value &&
                 StartsWith(names[1..][i], prefix) && forall j :: 0 <= j < i ==> !StartsWith(names[1..][j], prefix);
        assert names[i + 1] == SelectFor(names, prefix).value;
      }
    } else if names != [] {
      assert names[0] == SelectFor(names, prefix).value;
    }
  }

  /** The name a scan stopping at `k` returns. */
  lemma {:induction false} SelectForAt(names: seq<string>, prefix: string, k: nat)
    requires k < |names| && StartsWith(names[k], prefix)
    requires forall j :: 0 <= j < k ==> !StartsWith(names[j], prefix)
    ensures SelectFor(names, prefix) == Some(names[k])
  {
    if k > 0 {
      assert forall j :: 0 <= j < k - 1 ==> names[1..][j] == names[j + 1];
      SelectForAt(names[1..], prefix, k - 1);
    }
  }

  /** The `(name, version)` lines 442-443 pick for one prefix: the first name in map order that
      starts with it, if any. */
  function ChosenFor(m: Dict<string, string>, prefix: string): (r: seq<(string, string)>)
    requires m.Valid()
    ensures |r| <= 1
  {
    var chosen := SelectFor(m.keys, prefix);
    SelectForFirst(m.keys, prefix);
    if chosen.None? then [] else [(chosen.value, m.items[chosen.value])]
  }

  /** The picks of lines 441-443 for all prefixes, in prefix order. */
  function Chosen(m: Dict<string, string>, prefixes: seq<string>): seq<(string, string)>
    requires m.Valid()
  {
    if prefixes == [] then []
    else Chosen(m, prefixes[..|prefixes| - 1]) + ChosenFor(m, prefixes[|prefixes| - 1])
  }

  /** One `wget` run: the URL and the file it saves to. */
  datatype Download = Download(url: string, output: string)

  /** Lines 444-447 for a chosen name and its version. */
  function DownloadOf(baseUrl: string, outDir: string, name: string, version: string): Download
  {
    var debName := name + "_" + version + "_arm64.deb";
    // `name[0]`: the names of the map are never empty (`VersionMapNames`).
    var firstLetter := if name == [] then [] else [name[0]];
    Download(baseUrl + "/" + firstLetter + "/" + name + "/" + debName, PathJoin(PathJoin(outDir, name), debName))
  }

  /** The runs of lines 441-457, one per pick. */
  function Downloads(m: Dict<string, string>, prefixes: seq<string>, baseUrl: string, outDir: string)
    : (r: seq<Download>)
    requires m.Valid()
    ensures |r| == |Chosen(m, prefixes)|
  {
    MapSeq(Chosen(m, prefixes), DownloadEntry(baseUrl, outDir))
  }

  function DownloadEntry(baseUrl: string, outDir: string): ((string, string)) -> Download
  {
    (e: (string, string)) => DownloadOf(baseUrl, outDir, e.0, e.1)
  }

  /** The runs for one prefix. */
  function DownloadsFor(m: Dict<string, string>, prefix: string, baseUrl: string, outDir: string): seq<Download>
    requires m.Valid()
  {
    MapSeq(ChosenFor(m, prefix), DownloadEntry(baseUrl, outDir))
  }

  lemma DownloadsNext(m: Dict<string, string>, prefixes: seq<string>, baseUrl: string, outDir: string, i: nat)
    requires m.Valid() && i < |prefixes|
    ensures Downloads(m, prefixes[..i + 1], baseUrl, outDir) ==
            Downloads(m, prefixes[..i], baseUrl, outDir) + DownloadsFor(m, prefixes[i], baseUrl, outDir)
  {
    PrefixOfPrefix(prefixes, i);
    var before := Chosen(m, prefixes[..i]);
    var picks := ChosenFor(m, prefixes[i]);
    assert Chosen(m, prefixes[..i + 1]) == before + picks;
    if picks != [] {
      assert (before + picks)[..|before|] == before;
    } else {
      assert before + picks == before;
    }
  }

  /** Download `j` fetches pick `j`. */
  lemma DownloadsAt(m: Dict<string, string>, prefixes: seq<string>, baseUrl: string, outDir: string, j: nat)
    requires m.Valid() && j < |Chosen(m, prefixes)|
    ensures Downloads(m, prefixes, baseUrl, outDir)[j] ==
            DownloadOf(baseUrl, outDir, Chosen(m, prefixes)[j].0, Chosen(m, prefixes)[j].1)
  {
    MapSeqAt(Chosen(m, prefixes), DownloadEntry(baseUrl, outDir), j);
  }

  /** Lines 442-457 for one prefix: the first name in map order that starts with it. */
  method FirstMatch(m: Dict<string, string>, prefix: string) returns (chosen: Option<string>)
    requires m.Valid()
    ensures chosen == SelectFor(m.keys, prefix)
  {
    chosen := None;
    for k := 0 to |m.keys|
      invariant forall j :: 0 <= j < k ==> !StartsWith(m.keys[j], prefix)
    {
      if StartsWith(m.keys[k], prefix) {
        SelectForAt(m.keys, prefix, k);
        chosen := Some(m.keys[k]);
        break;
      }
    }
    if chosen.None? {
      SelectForFirst(m.keys, prefix);
    }
  }

  /** Lines 442-447 for one prefix: the download of the first matching name, if any. */
  method PickDownload(m: Dict<string, string>, prefix: string, baseUrl: string, outDir: string)
    returns (picked: seq<Download>)
    requires m.Valid()
    ensures picked == DownloadsFor(m, prefix, baseUrl, outDir)
  {
    var chosen := FirstMatch(m, prefix);
    picked := [];
    if chosen.Some? {
      SelectForFirst(m.keys, prefix);
      var version := m.items[chosen.value];
      picked := [DownloadOf(baseUrl, outDir, chosen.value, version)];
      assert ChosenFor(m, prefix) == [(chosen.value, version)];
    }
  }

  /** Lines 404-457: the downloads `pull_debs_wget` makes (a failed download is only logged). */
  method PullDebsWget(text: string, outDir: string, prefixes: seq<string>, baseUrl: string)
    returns (runs: seq<Download>)
    ensures runs == Downloads(VersionMap(text), prefixes, baseUrl, outDir)
  {
    var m := BuildVersionMap(text);
    runs := [];
    for i := 0 to |prefixes|
      invariant runs == Downloads(m, prefixes[..i], baseUrl, outDir)
    {
      DownloadsNext(m, prefixes, baseUrl, outDir, i);
      var picked := PickDownload(m, prefixes[i], baseUrl, outDir);
      runs := runs + picked;
    }
    assert prefixes[..|prefixes|] == prefixes;
  }

  /** Whether `name` is what the search for `prefix` picks. */
  predicate PicksFor(m: Dict<string, string>, prefix: string, name: string)
  {
    SelectFor(m.keys, prefix) == Some(name)
  }

  /** Each pick is the first name, in map order, starting with one of the prefixes, at the version the
      map holds for it; every such name is picked. */
  lemma {:induction false} ChosenFrom(m: Dict<string, string>, prefixes: seq<string>, name: string, version: string)
    requires m.Valid()
    ensures (name, version) in Chosen(m, prefixes) <==>
            name in m.items && version == m.items[name] &&
            exists i :: 0 <= i < |prefixes| && PicksFor(m, prefixes[i], name)
  {
    if prefixes != [] {
      var n := |prefixes| - 1;
      var p := prefixes[..n];
      ChosenFrom(m, p, name, version);
      SelectForFirst(m.keys, prefixes[n]);
      assert forall i :: 0 <= i < n ==> p[i] == prefixes[i];
      assert (name, version) in ChosenFor(m, prefixes[n]) <==>
             PicksFor(m, prefixes[n], name) && version == m.items[name];
      if exists i :: 0 <= i < |prefixes| && PicksFor(m, prefixes[i], name) {
        var i :| 0 <= i < |prefixes| && PicksFor(m, prefixes[i], name);
        SelectForFirst(m.keys, prefixes[i]);
        assert name in m.keys;
      }
    }
  }

  /** At most one pick per prefix, and none for a prefix no name starts with. */
  lemma {:induction false} ChosenCount(m: Dict<string, string>, prefixes: seq<string>)
    requires m.Valid()
    ensures |Chosen(m, prefixes)| <= |prefixes|
    ensures (forall i :: 0 <= i < |prefixes| ==> SelectFor(m.keys, prefixes[i]).None?) ==> Chosen(m, prefixes) == []
  {
    if prefixes != [] {
      var n := |prefixes| - 1;
      var p := prefixes[..n];
      ChosenCount(m, p);
      assert forall i :: 0 <= i < n ==> p[i] == prefixes[i];
    }
  }

  /** The URL is `<base>/<first letter>/<name>/<name>_<version>_arm64.deb`, saved under
      `<out_dir>/<name>/`. */
  lemma DownloadShape(baseUrl: string, outDir: string, name: string, version: string)
    requires name != [] && '/' !in name && outDir != [] && !EndsWith(outDir, "/")
    ensures var deb := name + "_" + version + "_arm64.deb";
            var d := DownloadOf(baseUrl, outDir, name, version);
            d.url == baseUrl + "/" + [name[0]] + "/" + name + "/" + deb &&
            d.output == outDir + "/" + name + "/" + deb
  {
    var deb := name + "_" + version + "_arm64.deb";
    assert !StartsWith(name, "/");
    assert PathJoin(outDir, name) == outDir + "/" + name;
    assert deb[0] == name[0];
    assert !StartsWith(deb, "/");
    var dir := outDir + "/" + name;
    assert dir[|dir| - 1] == name[|name| - 1];
  }

}
