/** Package descriptors of `PackageBuilder` (ubuntu/build_deb.py): the Debian `control` file reader and the
    descriptor table that `load_packages` fills. Python sets are modelled as duplicate-free sequences in the
    order the names first appear. */
module BuildDeb {

  import opened Wrappers
  import opened Text
  import opened Collections

  /** One entry of `self.packages`, keyed by the path of its `debian` directory. */
  datatype Descriptor = Descriptor(key: string, packages: seq<string>, dependencies: seq<string>, visited: bool)

  /** What `get_packages_from_control` returns: `[]` for a missing file, or the two name sets. */
  datatype Control = Missing | Parsed(packages: seq<string>, dependencies: seq<string>)

  /** Scanner state after some lines: every `Package:` value seen (with repeats), the
      `found_build_depends` flag and `build_depends_lines`. */
  datatype Scan = Scan(names: seq<string>, found: bool, depLines: seq<string>)

  const PackageTag: string := "Package:"
  const BuildDependsTag: string := "Build-Depends:"

  /** A continuation line: it starts with a space or a tab. */
  predicate Indented(line: string)
  {
    line != [] && (line[0] == ' ' || line[0] == '\t')
  }

  lemma StripKeepsTag(line: string, tag: string)
    requires tag != [] && NoSpace(tag) && StartsWith(line, tag)
    ensures StartsWith(Strip(line), tag)
  {
    assert line[0] == tag[0] && line[|tag| - 1] == tag[|tag| - 1];
    assert !IsSpace(line[0]) && !IsSpace(line[|tag| - 1]);
    assert LStrip(line) == line;
    var r := RStrip(line);
    RStripPrefix(line);
    assert |r| >= |tag|;
    assert r[..|tag|] == line[..|tag|];
  }

  /** `line.strip().split(':', 1)[1].strip()` for a line that starts with `tag`, whose only `:` ends it. */
  function FieldValue(line: string, tag: string): string
    requires tag != [] && NoSpace(tag) && StartsWith(line, tag)
  {
    StripKeepsTag(line, tag);
    Strip(Strip(line)[|tag|..])
  }

  lemma TagsHaveNoSpace()
    ensures NoSpace(PackageTag) && NoSpace(BuildDependsTag)
  {
  }

  /** The value of a `Package:` line. */
  function PackageValue(line: string): string
    requires StartsWith(line, PackageTag)
  {
    TagsHaveNoSpace();
    FieldValue(line, PackageTag)
  }

  /** The value of a `Build-Depends:` line. */
  function BuildDependsValue(line: string): string
    requires StartsWith(line, BuildDependsTag)
  {
    TagsHaveNoSpace();
    FieldValue(line, BuildDependsTag)
  }

  /** One iteration of the line loop (ubuntu/build_deb.py:131-146), in the order its `elif` chain tests. */
  function Step(st: Scan, line: string): Scan
  {
    if StartsWith(line, PackageTag) then
      st.(names := st.names + [PackageValue(line)])
    else if StartsWith(line, BuildDependsTag) && !st.found then
      var v := BuildDependsValue(line);
      Scan(st.names, true, if v != [] then st.depLines + [v] else st.depLines)
    else if st.found && Indented(line) then
      if Strip(line) != [] then st.(depLines := st.depLines + [Strip(line)]) else st
    else if st.found then
      st.(found := false)
    else
      st
  }

  /** The scanner state after all of `lines`. */
  function ScanLines(lines: seq<string>): Scan
  {
    if lines == [] then Scan([], false, []) else Step(ScanLines(lines[..|lines| - 1]), lines[|lines| - 1])
  }

  /** `dep.split()[0]` for every entry, or `IndexError` for the first entry without a token. */
  function FirstTokens(entries: seq<string>): (r: Result<seq<string>>)
    ensures r.Ok? <==> forall i :: 0 <= i < |entries| ==> SplitWs(entries[i]) != []
    ensures r.Ok? ==> |r.value| == |entries| && forall i :: 0 <= i < |entries| ==> r.value[i] == SplitWs(entries[i])[0]
  {
    if entries == [] then Ok([])
    else
      var t := SplitWs(entries[0]);
      if t == [] then Err(IndexError)
      else
        var rest := FirstTokens(entries[1..]);
        if rest.Err? then rest else Ok([t[0]] + rest.value)
  }

  /** The dependency names from the collected lines (ubuntu/build_deb.py:148-150). */
  function Dependencies(depLines: seq<string>): Result<seq<string>>
  {
    if depLines == [] then Ok([])
    else
      var tokens :- FirstTokens(SplitOn(Join(depLines, " "), ", "));
      Ok(Dedup(tokens))
  }

  /** `get_packages_from_control`, with the file given as its lines (`None` if it does not exist). */
  function ControlSpec(file: Option<seq<string>>): Result<Control>
  {
    if file.None? then Ok(Missing)
    else
      var st := ScanLines(file.value);
      var deps :- Dependencies(st.depLines);
      if st.names == [] then Err(Exit(1)) else Ok(Parsed(Dedup(st.names), deps))
  }

  /** The line loop of `get_packages_from_control` and its two checks after the loop. */
  method GetPackagesFromControl(file: Option<seq<string>>) returns (r: Result<Control>)
    ensures r == ControlSpec(file)
  {
    if file.None? {
      return Ok(Missing);
    }
    var lines := file.value;
    var names: seq<string> := [];
    var found := false;
    var depLines: seq<string> := [];
    var i := 0;
    while i < |lines|
      invariant 0 <= i <= |lines|
      invariant Scan(names, found, depLines) == ScanLines(lines[..i])
    {
      var line := lines[i];
      assert lines[..i + 1][..i] == lines[..i];
      assert ScanLines(lines[..i + 1]) == Step(Scan(names, found, depLines), line);
      if StartsWith(line, PackageTag) {
        names := names + [PackageValue(line)];
      } else if StartsWith(line, BuildDependsTag) && !found {
        found := true;
        var v := BuildDependsValue(line);
        if v != [] {
          depLines := depLines + [v];
        }
      } else if found && Indented(line) {
        if Strip(line) != [] {
          depLines := depLines + [Strip(line)];
        }
      } else if found {
        found := false;
      }
      i := i + 1;
    }
    assert lines[..i] == lines;
    var deps := Dependencies(depLines);
    if deps.Err? {
      return Err(deps.error);
    }
    if names == [] {
      return Err(Exit(1));
    }
    return Ok(Parsed(Dedup(names), deps.value));
  }

  /** The last line's effect on the names and the dependency lines. */
  lemma ScanLast(lines: seq<string>)
    requires lines != []
    ensures var p := lines[..|lines| - 1]; var line := lines[|lines| - 1];
      ScanLines(lines).names
        == ScanLines(p).names + (if StartsWith(line, PackageTag) then [PackageValue(line)] else [])
      && (ScanLines(lines).depLines == ScanLines(p).depLines
          || (!StartsWith(line, PackageTag) && StartsWith(line, BuildDependsTag)
              && ScanLines(lines).depLines == ScanLines(p).depLines + [BuildDependsValue(line)]
              && BuildDependsValue(line) != [])
          || (Indented(line) && ScanLines(lines).depLines == ScanLines(p).depLines + [Strip(line)]
              && Strip(line) != []))
  {
  }

  /** The values of the `Package:` lines of `lines`, in file order, whatever the lines between them are. */
  function PackageValues(lines: seq<string>): seq<string>
  {
    if lines == [] then []
    else
      var line := lines[|lines| - 1];
      PackageValues(lines[..|lines| - 1]) + (if StartsWith(line, PackageTag) then [PackageValue(line)] else [])
  }

  /** Package collection does not depend on the dependency-block state: the names are the `Package:` values. */
  lemma {:induction false} ScanNames(lines: seq<string>)
    ensures ScanLines(lines).names == PackageValues(lines)
  {
    if lines != [] {
      ScanNames(lines[..|lines| - 1]);
      ScanLast(lines);
    }
  }

  /** There are no package values exactly when no line starts with `Package:`. */
  lemma {:induction false} NoPackageValues(lines: seq<string>)
    ensures PackageValues(lines) == [] <==> forall i :: 0 <= i < |lines| ==> !StartsWith(lines[i], PackageTag)
  {
    if lines != [] {
      var p := lines[..|lines| - 1];
      NoPackageValues(p);
      assert forall i :: 0 <= i < |p| ==> p[i] == lines[i];
    }
  }

  /** A dependency line is the non-empty value of a `Build-Depends:` line or a non-blank indented line, stripped. */
  predicate DepLineFrom(lines: seq<string>, d: string)
  {
    exists i :: 0 <= i < |lines| && d != [] &&
      ((StartsWith(lines[i], BuildDependsTag) && d == BuildDependsValue(lines[i]))
       || (Indented(lines[i]) && d == Strip(lines[i])))
  }

  lemma {:induction false} DepLinesOrigin(lines: seq<string>)
    ensures forall k :: 0 <= k < |ScanLines(lines).depLines| ==> DepLineFrom(lines, ScanLines(lines).depLines[k])
  {
    if lines != [] {
      var p := lines[..|lines| - 1];
      DepLinesOrigin(p);
      ScanLast(lines);
      var before := ScanLines(p).depLines;
      var after := ScanLines(lines).depLines;
      forall k | 0 <= k < |after| ensures DepLineFrom(lines, after[k]) {
        if k < |before| {
          assert after[k] == before[k];
          var i :| 0 <= i < |p| && before[k] != [] &&
            ((StartsWith(p[i], BuildDependsTag) && before[k] == BuildDependsValue(p[i]))
             || (Indented(p[i]) && before[k] == Strip(p[i])));
          assert lines[i] == p[i];
        } else {
          assert lines[|lines| - 1] == lines[|p|];
        }
      }
    }
  }

  /** A line that is neither a `Package:` line nor indented ends an open dependency block, adding nothing. */
  lemma BlockEnds(lines: seq<string>, line: string)
    requires ScanLines(lines).found
    requires !StartsWith(line, PackageTag) && !Indented(line)
    ensures !ScanLines(lines + [line]).found
    ensures ScanLines(lines + [line]).depLines == ScanLines(lines).depLines
  {
    assert (lines + [line])[..|lines|] == lines;
  }

  /** A `Package:` line neither opens nor closes a dependency block. */
  lemma PackageLineKeepsBlock(lines: seq<string>, line: string)
    requires StartsWith(line, PackageTag)
    ensures ScanLines(lines + [line]).found == ScanLines(lines).found
    ensures ScanLines(lines + [line]).depLines == ScanLines(lines).depLines
  {
    assert (lines + [line])[..|lines|] == lines;
  }

  /** Inside a block, an indented line adds its stripped text unless it is blank. */
  lemma ContinuationGrowsBlock(lines: seq<string>, line: string)
    requires ScanLines(lines).found && Indented(line)
    ensures ScanLines(lines + [line]).found
    ensures ScanLines(lines + [line]).depLines
         == ScanLines(lines).depLines + (if Strip(line) == [] then [] else [Strip(line)])
  {
    assert (lines + [line])[..|lines|] == lines;
    assert !StartsWith(line, PackageTag) && !StartsWith(line, BuildDependsTag) by {
      assert PackageTag[0] == 'P' && BuildDependsTag[0] == 'B';
    }
  }

  /** The process exits with status 1 exactly when the file exists, its dependency entries all have a
      token, and no line starts with `Package:`. */
  lemma ControlExits(file: Option<seq<string>>)
    ensures ControlSpec(file) == Err(Exit(1))
        <==> file.Some? && Dependencies(ScanLines(file.value).depLines).Ok?
             && forall i :: 0 <= i < |file.value| ==> !StartsWith(file.value[i], PackageTag)
  {
    if file.Some? {
      ScanNames(file.value);
      NoPackageValues(file.value);
      var st := ScanLines(file.value);
      DependenciesError(st.depLines);
    }
  }

  /** The only way the dependency reduction fails is `IndexError`. */
  lemma DependenciesError(depLines: seq<string>)
    ensures Dependencies(depLines).Err? ==> Dependencies(depLines) == Err(IndexError)
  {
    if depLines != [] {
      FirstTokensError(SplitOn(Join(depLines, " "), ", "));
    }
  }

  /** A parsed control file declares a package; its names are exactly the `Package:` values, and every
      dependency name is a whitespace-free token. */
  lemma ControlParsed(file: Option<seq<string>>)
    requires ControlSpec(file).Ok? && ControlSpec(file).value.Parsed?
    ensures var c := ControlSpec(file).value;
      && c.packages != [] && NoDups(c.packages) && NoDups(c.dependencies)
      && (forall x :: x in c.packages <==> x in PackageValues(file.value))
      && (forall d :: d in c.dependencies ==> d != [] && NoSpace(d))
  {
    ScanNames(file.value);
    var st := ScanLines(file.value);
    assert st.names[0] in Dedup(st.names);
    if st.depLines != [] {
      var tokens := FirstTokens(SplitOn(Join(st.depLines, " "), ", ")).value;
      forall d | d in Dedup(tokens) ensures d != [] && NoSpace(d) {
        var i :| 0 <= i < |tokens| && tokens[i] == d;
      }
    }
  }

  /** A missing file is reported as `Missing`; an entry without a token raises `IndexError` before the
      missing-package check. */
  lemma ControlErrors(file: Option<seq<string>>)
    ensures file.None? ==> ControlSpec(file) == Ok(Missing)
    ensures file.Some? && Dependencies(ScanLines(file.value).depLines).Err? ==> ControlSpec(file) == Err(IndexError)
  {
    if file.Some? {
      DependenciesError(ScanLines(file.value).depLines);
    }
  }

  lemma {:induction false} FirstTokensError(entries: seq<string>)
    ensures FirstTokens(entries).Err? ==> FirstTokens(entries) == Err(IndexError)
  {
    if entries != [] && SplitWs(entries[0]) != [] {
      FirstTokensError(entries[1..]);
    }
  }

  /** Some descriptor of `table` has key `k`. */
  predicate HasKey(table: seq<Descriptor>, k: string)
  {
    exists i :: 0 <= i < |table| && table[i].key == k
  }

  /** Distinct keys, as a dictionary has. */
  predicate KeysDistinct(table: seq<Descriptor>)
  {
    forall i, j :: 0 <= i < j < |table| ==> table[i].key != table[j].key
  }

  /** The position of key `k` in `table`, or -1. */
  function KeyIndex(table: seq<Descriptor>, k: string): (i: int)
    ensures -1 <= i < |table|
    ensures i == -1 <==> !HasKey(table, k)
    ensures i >= 0 ==> table[i].key == k
  {
    if table == [] then -1
    else if table[0].key == k then 0
    else
      var j := KeyIndex(table[1..], k);
      assert HasKey(table, k) ==> HasKey(table[1..], k) by {
        if HasKey(table, k) {
          var n :| 0 <= n < |table| && table[n].key == k;
          assert table[1..][n - 1].key == k;
        }
      }
      if j == -1 then -1 else j + 1
  }

  /** `self.packages[key] = descriptor`: an existing key keeps its place, a new key goes last. */
  function PutDescriptor(table: seq<Descriptor>, d: Descriptor): (r: seq<Descriptor>)
    requires KeysDistinct(table)
    ensures KeysDistinct(r)
    ensures HasKey(table, d.key) ==>
              && |r| == |table| && r[KeyIndex(table, d.key)] == d
              && forall i :: 0 <= i < |table| && table[i].key != d.key ==> r[i] == table[i]
    ensures !HasKey(table, d.key) ==> r == table + [d]
  {
    var i := KeyIndex(table, d.key);
    if i < 0 then table + [d] else table[i := d]
  }

  /** Loading stores one descriptor per `debian` directory, replacing any with the same key. */
  lemma PutHasKeys(table: seq<Descriptor>, d: Descriptor, k: string)
    requires KeysDistinct(table)
    ensures HasKey(PutDescriptor(table, d), k) <==> k == d.key || HasKey(table, k)
  {
    var r := PutDescriptor(table, d);
    if HasKey(table, k) {
      var n :| 0 <= n < |table| && table[n].key == k;
      assert r[n].key == k;
    }
    if HasKey(r, k) {
      var n :| 0 <= n < |r| && r[n].key == k;
      if n < |table| && r[n] != d {
        assert table[n].key == k;
      }
    }
    if k == d.key {
      var n := if HasKey(table, d.key) then KeyIndex(table, d.key) else |table|;
      assert r[n].key == k;
    }
  }
}
