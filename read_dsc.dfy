/** `extract_md5sum_from_files` of `ubuntu/read_dsc.py`: the checksum, size and name of each file listed
    in the `Files:` section of a Debian source control file. The file is its sequence of lines, and
    `fnmatch.fnmatch` is the parameter `matches`. */
module ReadDsc {

  import opened Wrappers
  import opened Collections
  import opened Text

  /** One `{'md5sum': …, 'size': …, 'filename': …}` dictionary. */
  datatype Entry = Entry(md5sum: string, size: string, filename: string)

  /** `not filename_pattern or fnmatch.fnmatch(filename, filename_pattern)`: no pattern, or an empty
      one, keeps every entry. */
  predicate Wanted(filename: string, pattern: Option<string>, matches: (string, string) -> bool)
  {
    pattern.None? || pattern.value == [] || matches(filename, pattern.value)
  }

  predicate IsFilesLine(line: string) { StartsWith(line, "Files:") }

  /** A line that ends the section: neither a `Files:` line nor indented by a space. */
  predicate EndsSection(line: string) { !IsFilesLine(line) && !StartsWith(line, " ") }

  /** Lines 55-64 for one line inside the section: an indented line whose stripped text splits into
      three fields gives an entry, kept if its file name is wanted. */
  function ParseLine(line: string, pattern: Option<string>, matches: (string, string) -> bool): (r: seq<Entry>)
    ensures |r| <= 1
  {
    if !StartsWith(line, " ") then []
    else
      var parts := SplitWsMax(Strip(line), 2);
      if |parts| == 3 && Wanted(parts[2], pattern, matches) then [Entry(parts[0], parts[1], parts[2])] else []
  }

  /** A line gives an entry exactly when it is indented, splits into three fields and names a wanted file;
      the checksum and size are single words and the file name is the rest of the stripped line. */
  lemma ParseLineSound(line: string, pattern: Option<string>, matches: (string, string) -> bool)
    ensures var r := ParseLine(line, pattern, matches);
      r != [] <==> StartsWith(line, " ") && |SplitWsMax(Strip(line), 2)| == 3 &&
                   Wanted(SplitWsMax(Strip(line), 2)[2], pattern, matches)
    ensures var r := ParseLine(line, pattern, matches);
      r != [] ==> Wanted(r[0].filename, pattern, matches) && NoSpace(r[0].md5sum) && NoSpace(r[0].size) &&
                  r[0].md5sum != [] && r[0].size != [] && IsField(r[0].filename) && EndsWith(Strip(line), r[0].filename)
  {
    if StartsWith(line, " ") && |SplitWsMax(Strip(line), 2)| == 3 {
      SplitWsMaxLast(Strip(line), 2);
    }
  }

  /** The parser of lines 55-64 with the pattern fixed. */
  function Parser(pattern: Option<string>, matches: (string, string) -> bool): string -> seq<Entry>
  {
    line => ParseLine(line, pattern, matches)
  }

  /** The loop of lines 47-64 from a given state of the `in_files_section` flag; `parse` reads one
      indented line of the section. */
  function Scan(lines: seq<string>, inSection: bool, parse: string -> seq<Entry>): seq<Entry>
    decreases |lines|
  {
    if lines == [] then []
    else if IsFilesLine(lines[0]) then Scan(lines[1..], true, parse)
    else if inSection && EndsSection(lines[0]) then []
    else (if inSection then parse(lines[0]) else []) + Scan(lines[1..], inSection, parse)
  }

  /** One step of the loop at line `i`, case by case: a `Files:` line opens the section, a line that
      ends it stops the loop, a line inside it is parsed and a line outside it is skipped. */
  lemma ScanFilesAt(lines: seq<string>, i: nat, inSection: bool, parse: string -> seq<Entry>)
    requires i < |lines| && IsFilesLine(lines[i])
    ensures Scan(lines[i..], inSection, parse) == Scan(lines[i + 1..], true, parse)
  {
    DropOne(lines, i);
  }

  lemma ScanEndAt(lines: seq<string>, i: nat, parse: string -> seq<Entry>)
    requires i < |lines| && EndsSection(lines[i])
    ensures Scan(lines[i..], true, parse) == []
  {
    DropOne(lines, i);
  }

  lemma ScanParseAt(lines: seq<string>, i: nat, parse: string -> seq<Entry>)
    requires i < |lines| && !IsFilesLine(lines[i]) && !EndsSection(lines[i])
    ensures Scan(lines[i..], true, parse) == parse(lines[i]) + Scan(lines[i + 1..], true, parse)
  {
    DropOne(lines, i);
  }

  lemma ScanSkipAt(lines: seq<string>, i: nat, parse: string -> seq<Entry>)
    requires i < |lines| && !IsFilesLine(lines[i])
    ensures Scan(lines[i..], false, parse) == Scan(lines[i + 1..], false, parse)
  {
    DropOne(lines, i);
  }

  /** The body of lines 55-64 for one line read inside the section. */
  method ParseIndented(line: string, pattern: Option<string>, matches: (string, string) -> bool)
    returns (found: seq<Entry>)
    ensures found == ParseLine(line, pattern, matches)
  {
    found := [];
    if StartsWith(line, " ") {
      var parts := SplitWsMax(Strip(line), 2);
      if |parts| == 3 {
        var md5sum, size, filename := parts[0], parts[1], parts[2];
        if pattern.None? || pattern.value == [] || matches(filename, pattern.value) {
          found := [Entry(md5sum, size, filename)];
        }
      }
    }
  }

  /** `extract_md5sum_from_files(dsc_path, filename_pattern)` on the lines of the file. */
  method ExtractMd5sumFromFiles(lines: seq<string>, pattern: Option<string>, matches: (string, string) -> bool)
    returns (entries: seq<Entry>)
    ensures entries == Scan(lines, false, Parser(pattern, matches))
  {
    ghost var parse := Parser(pattern, matches);
    ghost var total := Scan(lines, false, parse);
    entries := [];
    var inSection := false;
    var i := 0;
    while i < |lines|
      invariant 0 <= i <= |lines|
      invariant entries + Scan(lines[i..], inSection, parse) == total
    {
      var line := lines[i];
      if StartsWith(line, "Files:") {
        ScanFilesAt(lines, i, inSection, parse);
        inSection := true;
        i := i + 1;
        continue;
      }
      if inSection && !StartsWith(line, " ") {
        ScanEndAt(lines, i, parse);
        break;
      }
      if inSection {
        ScanParseAt(lines, i, parse);
        var found := ParseIndented(line, pattern, matches);
        assert parse(line) == found;
        Associative(entries, found, Scan(lines[i + 1..], true, parse));
        entries := entries + found;
      } else {
        ScanSkipAt(lines, i, parse);
      }
      i := i + 1;
    }
    if i == |lines| {
      assert lines[i..] == [];
    }
  }

  // ---------------------------------------------------------------------------------------------
  // The section as a slice of the file
  // ---------------------------------------------------------------------------------------------

  /** The entries of a run of section lines, line by line; `Files:` lines give none. */
  function Entries(ls: seq<string>, parse: string -> seq<Entry>): seq<Entry>
  {
    if ls == [] then [] else (if IsFilesLine(ls[0]) then [] else parse(ls[0])) + Entries(ls[1..], parse)
  }

  /** Where the section lies, as a pair of line indices; `None` when there is no `Files:` line. */
  function SectionBounds(lines: seq<string>): Option<(nat, nat)>
  {
    var k := FirstIndexWhere(lines, IsFilesLine);
    if k < 0 then None
    else
      var e := FirstIndexWhere(lines[k + 1..], EndsSection);
      if e < 0 then Some((k + 1, |lines|)) else Some((k + 1, k + 1 + e))
  }

  /** The section starts after the first `Files:` line and runs up to, not including, the first later
      line that ends it, or to the end of the file. */
  lemma {:induction false} SectionBoundsSound(lines: seq<string>)
    ensures SectionBounds(lines).None? <==> forall i :: 0 <= i < |lines| ==> !IsFilesLine(lines[i])
    ensures SectionBounds(lines).Some? ==> var (a, b) := SectionBounds(lines).value;
      0 < a <= b <= |lines| && IsFilesLine(lines[a - 1]) &&
      (forall i :: 0 <= i < a - 1 ==> !IsFilesLine(lines[i])) &&
      (forall i :: a <= i < b ==> !EndsSection(lines[i])) &&
      (b < |lines| ==> EndsSection(lines[b]))
  {
    var k := FirstIndexWhere(lines, IsFilesLine);
    if k >= 0 {
      assert forall i :: k + 1 <= i < |lines| ==> lines[i] == lines[k + 1..][i - (k + 1)];
    }
  }

  /** What the reader returns: the entries of the section, in file order, and nothing when there is no
      `Files:` line. */
  function SectionEntries(lines: seq<string>, parse: string -> seq<Entry>): seq<Entry>
  {
    var bounds := SectionBounds(lines);
    if bounds.None? then [] else Entries(lines[bounds.value.0..bounds.value.1], parse)
  }

  /** Before the first `Files:` line the loop only skips. */
  lemma {:induction false} ScanOutside(lines: seq<string>, parse: string -> seq<Entry>)
    ensures var k := FirstIndexWhere(lines, IsFilesLine);
      Scan(lines, false, parse) == if k < 0 then [] else Scan(lines[k + 1..], true, parse)
  {
    if lines != [] && !IsFilesLine(lines[0]) {
      ScanOutside(lines[1..], parse);
      var k := FirstIndexWhere(lines[1..], IsFilesLine);
      assert FirstIndexWhere(lines, IsFilesLine) == if k < 0 then -1 else k + 1;
      if k >= 0 {
        assert lines[1..][k + 1..] == lines[k + 2..];
      }
    }
  }

  /** Inside the section the loop reads up to the first line that ends it. */
  lemma {:induction false} ScanInside(ls: seq<string>, parse: string -> seq<Entry>)
    ensures var e := FirstIndexWhere(ls, EndsSection);
      Scan(ls, true, parse) == Entries(if e < 0 then ls else ls[..e], parse)
  {
    if ls != [] && !EndsSection(ls[0]) {
      ScanInside(ls[1..], parse);
      var e := FirstIndexWhere(ls[1..], EndsSection);
      assert FirstIndexWhere(ls, EndsSection) == if e < 0 then -1 else e + 1;
      if e >= 0 {
        assert ls[..e + 1][0] == ls[0] && ls[..e + 1][1..] == ls[1..][..e];
      }
    } else if ls != [] {
      assert ls[..0] == [];
    }
  }

  /** The loop returns exactly the entries of the section. */
  lemma {:induction false} ScanIsSection(lines: seq<string>, parse: string -> seq<Entry>)
    ensures Scan(lines, false, parse) == SectionEntries(lines, parse)
  {
    ScanOutside(lines, parse);
    var k := FirstIndexWhere(lines, IsFilesLine);
    if k >= 0 {
      var tail := lines[k + 1..];
      ScanInside(tail, parse);
      var e := FirstIndexWhere(tail, EndsSection);
      if e < 0 {
        assert SectionBounds(lines).value == (k + 1, |lines|);
        assert lines[k + 1..|lines|] == tail;
      } else {
        assert SectionBounds(lines).value == (k + 1, k + 1 + e);
        assert lines[k + 1..k + 1 + e] == tail[..e];
      }
    }
  }

  /** Every entry comes from one line of the run that is not a `Files:` line. */
  lemma {:induction false} EntriesFromLines(ls: seq<string>, parse: string -> seq<Entry>, e: Entry)
    requires e in Entries(ls, parse)
    ensures exists i :: 0 <= i < |ls| && !IsFilesLine(ls[i]) && e in parse(ls[i])
  {
    if !IsFilesLine(ls[0]) && e in parse(ls[0]) {
    } else {
      EntriesFromLines(ls[1..], parse, e);
      var i :| 0 <= i < |ls[1..]| && !IsFilesLine(ls[1..][i]) && e in parse(ls[1..][i]);
      assert ls[i + 1] == ls[1..][i];
    }
  }

  /** Every entry returned is the split of an indented section line, with a wanted file name that is the
      rest of the line after the checksum and the size. */
  lemma {:induction false} EntrySound(lines: seq<string>, pattern: Option<string>, matches: (string, string) -> bool, e: Entry)
    requires e in Scan(lines, false, Parser(pattern, matches))
    ensures exists i :: 0 <= i < |lines| && StartsWith(lines[i], " ") && ParseLine(lines[i], pattern, matches) == [e]
    ensures Wanted(e.filename, pattern, matches) && NoSpace(e.md5sum) && NoSpace(e.size)
  {
    var parse := Parser(pattern, matches);
    ScanIsSection(lines, parse);
    SectionBoundsSound(lines);
    var (a, b) := SectionBounds(lines).value;
    var ls := lines[a..b];
    EntriesFromLines(ls, parse, e);
    var i :| 0 <= i < |ls| && !IsFilesLine(ls[i]) && e in parse(ls[i]);
    assert lines[a + i] == ls[i];
    assert parse(ls[i]) == ParseLine(ls[i], pattern, matches);
    ParseLineSound(ls[i], pattern, matches);
  }

  /** Without a `Files:` line the result is empty. */
  lemma {:induction false} NoFilesLine(lines: seq<string>, parse: string -> seq<Entry>)
    requires forall i :: 0 <= i < |lines| ==> !IsFilesLine(lines[i])
    ensures Scan(lines, false, parse) == []
  {
    ScanIsSection(lines, parse);
    SectionBoundsSound(lines);
  }

  /** Whatever follows the end of the section is never read. */
  lemma {:induction false} IgnoresTail(lines: seq<string>, more: seq<string>, parse: string -> seq<Entry>)
    requires SectionBounds(lines).Some? && SectionBounds(lines).value.1 < |lines|
    ensures Scan(lines + more, false, parse) == Scan(lines, false, parse)
  {
    var (a, b) := SectionBounds(lines).value;
    var all := lines + more;
    SameBounds(lines, more, a, b);
    ScanIsSection(lines, parse);
    ScanIsSection(all, parse);
    assert all[a..b] == lines[a..b];
  }

  lemma {:induction false} SameBounds(lines: seq<string>, more: seq<string>, a: nat, b: nat)
    requires SectionBounds(lines) == Some((a, b)) && b < |lines|
    ensures SectionBounds(lines + more) == Some((a, b))
  {
    var all := lines + more;
    SectionBoundsSound(lines);
    SectionBoundsSound(all);
    assert forall i :: 0 <= i < |lines| ==> all[i] == lines[i];
    assert IsFilesLine(all[a - 1]);
    var r := SectionBounds(all);
    var (a', b') := r.value;
    assert a' == a;
    assert all[b] == lines[b];
    assert b' <= b;
    assert all[b'] == lines[b'];
    assert b' == b;
  }

  /** Lines before the first `Files:` line never reach the result. */
  lemma {:induction false} IgnoresPreamble(pre: seq<string>, rest: seq<string>, parse: string -> seq<Entry>)
    requires forall i :: 0 <= i < |pre| ==> !IsFilesLine(pre[i])
    ensures Scan(pre + rest, false, parse) == Scan(rest, false, parse)
  {
    if pre != [] {
      assert (pre + rest)[0] == pre[0] && (pre + rest)[1..] == pre[1..] + rest;
      IgnoresPreamble(pre[1..], rest, parse);
    } else {
      assert pre + rest == rest;
    }
  }
}
