/** `ubuntu/deb_organize.py`: the map from source paths to projects read from the tab-separated
    manifest map file, and the lookup of a source path in it. The file is its sequence of lines;
    writing it (`create_project_info_file`) is not part of this model. */
module DebOrganize {

  import opened Wrappers
  import opened Collections
  import opened Text

  /** `MANIFEST_MAP`: an insertion-ordered dictionary from path to project. */
  type ManifestMap = Dict<string, string>

  /** One line of the file as line 23 reads it: two stripped fields. */
  datatype Row = Row(key: string, value: string)

  /** `line.strip().split('\t')`, then fields 0 and 1 stripped; `None` stands for the `IndexError` that
      `parts[1]` raises on a line without a tab between two fields. */
  function ParseRow(line: string): Option<Row>
  {
    var parts := SplitChar(Strip(line), '\t');
    if |parts| >= 2 then Some(Row(Strip(parts[0]), Strip(parts[1]))) else None
  }

  /** The lines of the file, each read as a row. */
  function Rows(lines: seq<string>): seq<Option<Row>>
  {
    MapSeq(lines, ParseRow)
  }

  /** A line gives a row exactly when its stripped text holds a tab; the key is the stripped text before
      the first tab and the value the stripped text between it and the next one. */
  lemma ParseRowFields(line: string)
    ensures ParseRow(line).Some? <==> '\t' in Strip(line)
    ensures ParseRow(line).Some? ==>
              exists k :: 0 <= k < |Strip(line)| && Strip(line)[k] == '\t' &&
                          '\t' !in Strip(line)[..k] && ParseRow(line).value.key == Strip(Strip(line)[..k]) &&
                          ParseRow(line).value.value == Strip(SplitChar(Strip(line)[k + 1..], '\t')[0])
  {
    var s := Strip(line);
    SplitCharSplits(s, '\t');
    if '\t' in s {
      var k := FirstIndexWhere(s, x => x == '\t');
      assert forall j :: 0 <= j < k ==> s[..k][j] == s[j];
      SplitCharAt(s, '\t', k);
    }
  }

  /** Row `i` is the parse of line `i`. */
  lemma RowsAt(lines: seq<string>, i: nat)
    requires i < |lines|
    ensures |Rows(lines)| == |lines| && Rows(lines)[i] == ParseRow(lines[i])
  {
    MapSeqAt(lines, ParseRow, i);
  }

  /** Line 23 for one row: `MANIFEST_MAP[key] = value`. */
  function AddRow(m: ManifestMap, row: Option<Row>): (r: Result<ManifestMap>)
    requires m.Valid()
    ensures r.Ok? ==> r.value.Valid()
  {
    if row.Some? then Ok(Put(m, row.value.key, row.value.value)) else Err(IndexError)
  }

  /** The map built from the rows in order, stopping at the first bad one. */
  function Build(rows: seq<Option<Row>>): (r: Result<ManifestMap>)
    ensures r.Ok? ==> r.value.Valid()
  {
    if rows == [] then Ok(EmptyDict())
    else
      var m :- Build(rows[..|rows| - 1]);
      AddRow(m, rows[|rows| - 1])
  }

  /** The map lines 20-23 build from the lines of the file. */
  function ReadMap(lines: seq<string>): (r: Result<ManifestMap>)
  {
    Build(Rows(lines))
  }

  /** Lines 22-23 for one line: its two stripped fields, or `None` where `parts[1]` raises. */
  method ReadRow(line: string) returns (row: Option<Row>)
    ensures row == ParseRow(line)
  {
    var parts := SplitChar(Strip(line), '\t');
    if |parts| < 2 {
      return None;
    }
    return Some(Row(Strip(parts[0]), Strip(parts[1])));
  }

  /** The loop of lines 20-23 of `generate_manifest_map`. */
  method GenerateManifestMap(lines: seq<string>) returns (r: Result<ManifestMap>)
    ensures r == ReadMap(lines)
  {
    var m := EmptyDict();
    for i := 0 to |lines|
      invariant Build(Rows(lines)[..i]) == Ok(m)
    {
      var row := ReadRow(lines[i]);
      if row.None? {
        BuildStops(lines, i);
        return Err(IndexError);
      }
      BuildNext(lines, i, m, row.value);
      m := Put(m, row.value.key, row.value.value);
    }
    assert Rows(lines)[..|lines|] == Rows(lines);
    return Ok(m);
  }

  /** One more line read. */
  lemma BuildNext(lines: seq<string>, i: nat, m: ManifestMap, row: Row)
    requires i < |lines| && ParseRow(lines[i]) == Some(row) && Build(Rows(lines)[..i]) == Ok(m)
    ensures m.Valid() && Build(Rows(lines)[..i + 1]) == Ok(Put(m, row.key, row.value))
  {
    PrefixOfPrefix(Rows(lines), i);
    RowsAt(lines, i);
  }

  /** A line without two fields ends the reading with `IndexError`. */
  lemma BuildStops(lines: seq<string>, i: nat)
    requires i < |lines| && ParseRow(lines[i]).None?
    ensures Build(Rows(lines)) == Err(IndexError)
  {
    RowsAt(lines, i);
    BuildOk(Rows(lines));
    BuildError(Rows(lines));
  }

  /** Building succeeds exactly when every row was read. */
  lemma {:induction false} BuildOk(rows: seq<Option<Row>>)
    ensures Build(rows).Ok? <==> forall i :: 0 <= i < |rows| ==> rows[i].Some?
  {
    if rows != [] {
      var p := rows[..|rows| - 1];
      BuildOk(p);
      assert forall i :: 0 <= i < |p| ==> p[i] == rows[i];
    }
  }

  /** The only error is the `IndexError` of a line without a second field. */
  lemma {:induction false} BuildError(rows: seq<Option<Row>>)
    ensures Build(rows).Err? ==> Build(rows).error == IndexError
  {
    if rows != [] {
      BuildError(rows[..|rows| - 1]);
    }
  }

  /** Reading succeeds exactly when every line has two tab-separated fields, and fails with `IndexError`
      otherwise. */
  lemma ReadMapOk(lines: seq<string>)
    ensures ReadMap(lines).Ok? <==> forall i :: 0 <= i < |lines| ==> ParseRow(lines[i]).Some?
    ensures ReadMap(lines).Err? ==> ReadMap(lines).error == IndexError
  {
    forall i | 0 <= i < |lines| ensures Rows(lines)[i] == ParseRow(lines[i]) {
      RowsAt(lines, i);
    }
    BuildOk(Rows(lines));
    BuildError(Rows(lines));
  }

  /** The keys of the rows, in order. */
  function KeysOf(rows: seq<Option<Row>>): (r: seq<string>)
    requires forall i :: 0 <= i < |rows| ==> rows[i].Some?
    ensures |r| == |rows| && forall i :: 0 <= i < |rows| ==> r[i] == rows[i].value.key
  {
    seq(|rows|, i requires 0 <= i < |rows| => rows[i].value.key)
  }

  /** The map's keys are the keys of the rows in order of first occurrence: a key read again keeps its
      place. */
  lemma {:induction false} BuildKeys(rows: seq<Option<Row>>)
    requires Build(rows).Ok?
    ensures forall i :: 0 <= i < |rows| ==> rows[i].Some?
    ensures Build(rows).value.keys == Dedup(KeysOf(rows))
  {
    BuildOk(rows);
    if rows != [] {
      var n := |rows| - 1;
      var p := rows[..n];
      BuildOk(p);
      BuildKeys(p);
      var ks := KeysOf(rows);
      assert KeysOf(p) == ks[..n];
      DedupSnoc(ks, n);
      assert ks[..n + 1] == ks;
    }
  }

  /** Later rows overwrite earlier ones: a key maps to the value of the last row that has it. */
  lemma {:induction false} BuildLatest(rows: seq<Option<Row>>, i: nat)
    requires Build(rows).Ok? && i < |rows| && rows[i].Some?
    requires forall j :: i < j < |rows| && rows[j].Some? ==> rows[j].value.key != rows[i].value.key
    ensures rows[i].value.key in Build(rows).value.items
    ensures Build(rows).value.items[rows[i].value.key] == rows[i].value.value
  {
    var n := |rows| - 1;
    var p := rows[..n];
    if i < n {
      assert p[i] == rows[i];
      assert forall j :: i < j < |p| ==> p[j] == rows[j];
      BuildLatest(p, i);
    }
  }

  /** The same on the lines of the file: a key maps to the value of the last line that reads as a row
      with it. */
  lemma ReadMapLatest(lines: seq<string>, i: nat)
    requires ReadMap(lines).Ok? && i < |lines| && ParseRow(lines[i]).Some?
    requires forall j :: i < j < |lines| && ParseRow(lines[j]).Some? ==>
               ParseRow(lines[j]).value.key != ParseRow(lines[i]).value.key
    ensures ParseRow(lines[i]).value.key in ReadMap(lines).value.items
    ensures ReadMap(lines).value.items[ParseRow(lines[i]).value.key] == ParseRow(lines[i]).value.value
  {
    var rows := Rows(lines);
    forall j | 0 <= j < |lines| ensures rows[j] == ParseRow(lines[j]) {
      RowsAt(lines, j);
    }
    BuildLatest(rows, i);
  }

  /** Every key of the map is the key of some row. */
  lemma {:induction false} BuildFrom(rows: seq<Option<Row>>, k: string)
    requires Build(rows).Ok? && k in Build(rows).value.items
    ensures exists i :: 0 <= i < |rows| && rows[i].Some? && rows[i].value.key == k
  {
    var n := |rows| - 1;
    var p := rows[..n];
    var m := Build(p).value;
    if k in m.items {
      BuildFrom(p, k);
      var i :| 0 <= i < |p| && p[i].Some? && p[i].value.key == k;
      assert p[i] == rows[i];
    }
  }

  // ---------------------------------------------------------------------------------------------
  // search_manifest_map_for_path
  // ---------------------------------------------------------------------------------------------

  /** `str(path).strip().replace(SOURCE_DIR, 'sources')` */
  function Normalize(sourceDir: string, path: string): string
  {
    ReplaceAll(Strip(path), sourceDir, "sources")
  }

  /** `all(part in path_parts for part in key_parts)`: every `/`-component of the key is a component of
      the path, in any order. */
  predicate Covers(key: string, pathParts: seq<string>)
  {
    forall part :: part in SplitChar(key, '/') ==> part in pathParts
  }

  /** `search_manifest_map_for_path(MANIFEST_MAP, SOURCE_DIR, path)`; `None` and the empty string are
      the falsy paths. */
  function Search(m: ManifestMap, sourceDir: string, path: Option<string>): Option<string>
    requires m.Valid()
  {
    if path.None? || path.value == [] then None
    else
      var p := Normalize(sourceDir, path.value);
      if p in m.items then Some(m.items[p])
      else
        var parts := SplitChar(p, '/');
        var i := FirstIndexWhere(m.keys, key => Covers(key, parts));
        if i < 0 then None else Some(m.items[m.keys[i]])
  }

  /** A falsy path finds nothing. */
  lemma SearchFalsy(m: ManifestMap, sourceDir: string, path: Option<string>)
    requires m.Valid() && (path.None? || path.value == [])
    ensures Search(m, sourceDir, path) == None
  {
  }

  /** A normalised path that is a key finds that key's value. */
  lemma SearchExact(m: ManifestMap, sourceDir: string, path: string)
    requires m.Valid() && path != [] && Normalize(sourceDir, path) in m.items
    ensures Search(m, sourceDir, Some(path)) == Some(m.items[Normalize(sourceDir, path)])
  {
  }

  /** Otherwise the lookup finds something exactly when some key is covered by the path's components. */
  lemma SearchFound(m: ManifestMap, sourceDir: string, path: string)
    requires m.Valid() && path != [] && Normalize(sourceDir, path) !in m.items
    ensures var parts := SplitChar(Normalize(sourceDir, path), '/');
      Search(m, sourceDir, Some(path)).Some? <==> exists k :: k in m.items && Covers(k, parts)
  {
    var parts := SplitChar(Normalize(sourceDir, path), '/');
    var i := FirstIndexWhere(m.keys, key => Covers(key, parts));
    if i < 0 {
      forall k | k in m.items ensures !Covers(k, parts) {
        var j :| 0 <= j < |m.keys| && m.keys[j] == k;
        assert !(key => Covers(key, parts))(m.keys[j]);
      }
    } else {
      assert m.keys[i] in m.items && (key => Covers(key, parts))(m.keys[i]);
    }
  }

  /** ... and then it finds the value of the first such key in the map's order. */
  lemma SearchFirst(m: ManifestMap, sourceDir: string, path: string)
    requires m.Valid() && path != [] && Normalize(sourceDir, path) !in m.items
    requires Search(m, sourceDir, Some(path)).Some?
    ensures var parts := SplitChar(Normalize(sourceDir, path), '/');
      exists i :: 0 <= i < |m.keys| && Covers(m.keys[i], parts) &&
        (forall j :: 0 <= j < i ==> !Covers(m.keys[j], parts)) &&
        Search(m, sourceDir, Some(path)) == Some(m.items[m.keys[i]])
  {
    var parts := SplitChar(Normalize(sourceDir, path), '/');
    var i := FirstIndexWhere(m.keys, key => Covers(key, parts));
    assert (key => Covers(key, parts))(m.keys[i]);
    assert forall j :: 0 <= j < i ==> !(key => Covers(key, parts))(m.keys[j]);
  }

  /** Whatever the lookup finds is a value of the map. */
  lemma SearchIsValue(m: ManifestMap, sourceDir: string, path: Option<string>)
    requires m.Valid() && Search(m, sourceDir, path).Some?
    ensures exists k :: k in m.items && m.items[k] == Search(m, sourceDir, path).value
  {
    var p := Normalize(sourceDir, path.value);
    if p !in m.items {
      var parts := SplitChar(p, '/');
      var i := FirstIndexWhere(m.keys, key => Covers(key, parts));
      assert m.keys[i] in m.items;
    }
  }

  /** On a map read from a file, a path that normalises to the key of some row finds the value of the
      last row with that key. */
  lemma LookupLatest(rows: seq<Option<Row>>, sourceDir: string, path: string, i: nat)
    requires Build(rows).Ok? && i < |rows| && path != []
    requires rows[i].Some? && rows[i].value.key == Normalize(sourceDir, path)
    requires forall j :: i < j < |rows| && rows[j].Some? ==> rows[j].value.key != rows[i].value.key
    ensures Search(Build(rows).value, sourceDir, Some(path)) == Some(rows[i].value.value)
  {
    BuildLatest(rows, i);
  }
}
