/** `scripts/create_data_tar.py`: which `.deb` files a `.changes` file names, where each one is
    extracted, which `.changes` file is used and what the tarball is called. The file system, the
    `dpkg-deb` runs, modification times and `os.path.abspath` are parameters. */
module CreateDataTar {

  import opened Wrappers
  import opened Collections
  import opened Text

  // ---------------------------------------------------------------------------------------------
  // The pattern of line 85, as written
  // ---------------------------------------------------------------------------------------------

  /** The raw string `r'(^|\\s)([^\\s]+\\.deb)\\b'` is the regular expression `(^|\\s)([^\\s]+\\.deb)\\b`:
      a doubled backslash in it stands for one literal backslash. `[^\\s]` is any character but a
      backslash or the letter `s`. */
  predicate InClass(c: char)
  {
    c != '\\' && c != 's'
  }

  /** The length of the run of class characters from `q`. */
  function RunLength(text: string, q: nat): (n: nat)
    requires q <= |text|
    ensures q + n <= |text|
    ensures forall j :: q <= j < q + n ==> InClass(text[j])
    ensures q + n == |text| || !InClass(text[q + n])
    decreases |text| - q
  {
    if q == |text| || !InClass(text[q]) then 0 else 1 + RunLength(text, q + 1)
  }

  /** `([^\\s]+\\.deb)\\b` from `q`: a backslash, any character but a newline, `deb`, a backslash and a
      `b` must follow the run. A shorter run is followed by a class character, never by a backslash, so
      the greedy run is the only candidate. The result is the captured name and the end of the match. */
  function TailAt(text: string, q: nat): (r: Option<(string, nat)>)
    requires q <= |text|
    ensures r.Some? ==> q < r.value.1 <= |text|
  {
    var e := q + RunLength(text, q);
    if e > q && e + 7 <= |text| && text[e] == '\\' && text[e + 1] != '\n' && text[e + 2..e + 5] == "deb"
       && text[e + 5] == '\\' && text[e + 6] == 'b'
    then Some((text[q..e + 5], e + 7))
    else None
  }

  /** The pattern at `p`: `^` first (only at the start of the text, as there is no `MULTILINE` flag),
      then the two characters backslash and `s`. */
  function MatchAt(text: string, p: nat): (r: Option<(string, nat)>)
    requires p <= |text|
    ensures r.Some? ==> p < r.value.1 <= |text|
  {
    var atStart := if p == 0 then TailAt(text, 0) else None;
    if atStart.Some? then atStart
    else if p + 2 <= |text| && text[p] == '\\' && text[p + 1] == 's' then TailAt(text, p + 2)
    else None
  }

  /** `[fn for _, fn in re.findall(pattern, text)]` from position `p`: matches do not overlap, and the
      search resumes where a match ends. */
  function FindAll(text: string, p: nat): seq<string>
    requires p <= |text|
    decreases |text| - p
  {
    if p == |text| then []
    else
      var m := MatchAt(text, p);
      if m.Some? then [m.value.0] + FindAll(text, m.value.1) else FindAll(text, p + 1)
  }

  /** Every name the pattern captures holds a backslash. */
  lemma {:induction false} FindAllBackslash(text: string, p: nat, name: string)
    requires p <= |text| && name in FindAll(text, p)
    ensures '\\' in name
    decreases |text| - p
  {
    var m := MatchAt(text, p);
    if m.Some? && name == m.value.0 {
      var q := if p == 0 && TailAt(text, 0).Some? then 0 else p + 2;
      var e := q + RunLength(text, q);
      assert name == text[q..e + 5];
      assert name[e - q] == '\\';
    } else if m.Some? {
      FindAllBackslash(text, m.value.1, name);
    } else {
      FindAllBackslash(text, p + 1, name);
    }
  }

  /** A text without a backslash gives no match, so the fallback of lines 86-92 decides. */
  lemma {:induction false} FindAllNone(text: string, p: nat)
    requires p <= |text| && '\\' !in text
    ensures FindAll(text, p) == []
    decreases |text| - p
  {
    if p < |text| {
      assert forall q :: 0 <= q <= |text| ==> TailAt(text, q).None? by {
        forall q | 0 <= q <= |text| ensures TailAt(text, q).None? {
          var e := q + RunLength(text, q);
          assert e < |text| ==> text[e] != '\\';
        }
      }
      assert MatchAt(text, p).None?;
      FindAllNone(text, p + 1);
    }
  }

  /** The pattern does match text written with literal backslashes. */
  lemma PatternExample()
    ensures FindAll("a\\xdeb\\b", 0) == ["a\\xdeb"]
  {
    var t := "a\\xdeb\\b";
    assert t[1] == '\\';
    assert RunLength(t, 1) == 0;
    assert RunLength(t, 0) == 1;
    assert t[3..6] == "deb";
    assert TailAt(t, 0) == Some((t[0..6], 8));
    assert t[0..6] == "a\\xdeb";
  }

  // ---------------------------------------------------------------------------------------------
  // The fallback of lines 86-92
  // ---------------------------------------------------------------------------------------------

  predicate IsDebName(token: string)
  {
    EndsWith(token, ".deb")
  }

  /** Lines 89-92 for one line: its whitespace tokens ending in `.deb`, if the line mentions `.deb`. */
  function DebTokens(line: string): seq<string>
  {
    if Contains(line, ".deb") then Filter(SplitWs(line), IsDebName) else []
  }

  /** Lines 88-92 over all lines, in order. */
  function Fallback(lines: seq<string>): seq<string>
  {
    FlatMap(lines, DebTokens)
  }

  /** Lines 90-92: `debs.append(tok)` for each token ending in `.deb`. */
  method AppendDebTokens(debs: seq<string>, tokens: seq<string>) returns (out: seq<string>)
    ensures out == debs + Filter(tokens, IsDebName)
  {
    out := debs;
    for j := 0 to |tokens|
      invariant out == debs + Filter(tokens[..j], IsDebName)
    {
      FilterSnoc(tokens, IsDebName, j);
      if IsDebName(tokens[j]) {
        Associative(debs, Filter(tokens[..j], IsDebName), [tokens[j]]);
        out := out + [tokens[j]];
      } else {
        assert Filter(tokens[..j + 1], IsDebName) == Filter(tokens[..j], IsDebName);
      }
    }
    assert tokens[..|tokens|] == tokens;
  }

  /** Lines 88-92 of `collect_debs_from_changes`. */
  method FallbackTokens(text: string) returns (debs: seq<string>)
    ensures debs == Fallback(SplitLines(text))
  {
    var lines := SplitLines(text);
    debs := [];
    for i := 0 to |lines|
      invariant debs == Fallback(lines[..i])
    {
      FlatMapNext(lines, DebTokens, i);
      var line := lines[i];
      if Contains(line, ".deb") {
        debs := AppendDebTokens(debs, SplitWs(line));
      }
    }
    assert lines[..|lines|] == lines;
  }

  /** The `'.deb' in line` test drops nothing: a token ending in `.deb` makes its line mention `.deb`. */
  lemma DebTokensAll(line: string)
    ensures DebTokens(line) == Filter(SplitWs(line), IsDebName)
  {
    if !Contains(line, ".deb") {
      var ts := Filter(SplitWs(line), IsDebName);
      if ts != [] {
        assert ts[0] in ts;
        SplitWsOccurs(line, ts[0]);
        var i :| OccursAt(line, ts[0], i);
        OccursSuffix(line, ts[0], i, ".deb");
        assert false;
      }
    }
  }

  /** The fallback names are exactly the whitespace tokens ending in `.deb`, taken from every line. */
  lemma FallbackMembers(lines: seq<string>, token: string)
    ensures token in Fallback(lines) <==>
            exists i :: 0 <= i < |lines| && token in SplitWs(lines[i]) && IsDebName(token)
  {
    FlatMapMembers(lines, DebTokens, token);
    forall i | 0 <= i < |lines|
      ensures token in DebTokens(lines[i]) <==> token in SplitWs(lines[i]) && IsDebName(token)
    {
      DebTokensAll(lines[i]);
    }
  }

  /** What the file names: the pattern's matches, or the fallback tokens when there are none. */
  function Referenced(text: string): seq<string>
  {
    var found := FindAll(text, 0);
    if found == [] then Fallback(SplitLines(text)) else found
  }

  /** `collect_debs_from_changes(changes_path)` with the text read from the file, or `None` when reading
      raised. */
  function CollectDebs(path: string, contents: Option<string>): Result<seq<string>>
  {
    if contents.None? then Err(RuntimeError("Failed to read .changes file " + path))
    else
      var uniq := Dedup(Referenced(contents.value));
      if uniq == [] then Err(RuntimeError("No .deb files referenced in .changes file: " + path)) else Ok(uniq)
  }

  /** Lines 78-98. */
  method CollectDebsFromChanges(path: string, contents: Option<string>) returns (r: Result<seq<string>>)
    ensures r == CollectDebs(path, contents)
  {
    if contents.None? {
      return Err(RuntimeError("Failed to read .changes file " + path));
    }
    var text := contents.value;
    var debs := FindAll(text, 0);
    if debs == [] {
      debs := FallbackTokens(text);
    }
    var uniq := Dedup(debs);
    if uniq == [] {
      return Err(RuntimeError("No .deb files referenced in .changes file: " + path));
    }
    return Ok(uniq);
  }

  /** The result lists every referenced name once, in order of first mention, and is never empty; a
      file that names nothing raises. */
  lemma CollectResult(path: string, text: string)
    ensures CollectDebs(path, Some(text)).Err? <==> Referenced(text) == []
    ensures CollectDebs(path, Some(text)).Ok? ==>
              var names := CollectDebs(path, Some(text)).value;
              names != [] && NoDups(names) && (forall x :: x in names <==> x in Referenced(text))
  {
    var d := Referenced(text);
    if d != [] {
      assert d[0] in Dedup(d);
    }
  }

  /** Without a backslash in the file the fallback alone decides. */
  lemma FallbackDecides(path: string, text: string)
    requires '\\' !in text
    ensures Referenced(text) == Fallback(SplitLines(text))
  {
    FindAllNone(text, 0);
  }

  // ---------------------------------------------------------------------------------------------
  // extract_debs_to_data
  // ---------------------------------------------------------------------------------------------

  /** What one `dpkg-deb -x` run does: it extracts, the tool is missing (`FileNotFoundError`), or it
      fails (`CalledProcessError`). */
  datatype Outcome = Extracted | ToolMissing | ExtractFailed

  /** `os.path.basename(p)` */
  function Basename(p: string): string
  {
    p[LastIndexOf(p, '/') + 1..]
  }

  /** Line 119: the part before the first `_`, or the name without its extension. */
  function PackageDir(base: string): string
  {
    if '_' in base then SplitChar(base, '_')[0] else SplitextRoot(base)
  }

  /** Line 112. */
  function DebPath(workDir: string, name: string): string
  {
    if StartsWith(name, "/") then name else PathJoin(workDir, name)
  }

  /** Line 120: `os.path.join(work_dir, 'data', pkg, arch)`. */
  function DestDir(workDir: string, name: string, arch: string): string
  {
    PathJoin(PathJoin(PathJoin(workDir, "data"), PackageDir(Basename(DebPath(workDir, name)))), arch)
  }

  /** The `(deb_path, dest_dir)` pair lines 112-120 compute for one name. */
  function JobOf(workDir: string, arch: string, name: string): (string, string)
  {
    (DebPath(workDir, name), DestDir(workDir, name, arch))
  }

  function Jobs(names: seq<string>, workDir: string, arch: string): (r: seq<(string, string)>)
    ensures |r| == |names|
  {
    MapSeq(names, name => JobOf(workDir, arch, name))
  }

  lemma JobsAt(names: seq<string>, workDir: string, arch: string, i: nat)
    requires i < |names|
    ensures Jobs(names, workDir, arch)[i] == JobOf(workDir, arch, names[i])
  {
    MapSeqAt(names, name => JobOf(workDir, arch, name), i);
  }

  /** The state of the loop of lines 111-131: `extracted_any`, whether it returned early, and the
      `(deb_path, dest_dir)` of every run so far. */
  datatype Extraction = Extraction(extractedAny: bool, stopped: bool, runs: seq<(string, string)>)

  /** One pass of the loop; `present` is `os.path.exists` and `run` the outcome of `dpkg-deb -x`. */
  function ExtractStep(st: Extraction, job: (string, string), present: string -> bool,
                       run: (string, string) -> Outcome): Extraction
  {
    if st.stopped || !present(job.0) then st
    else
      var ran := st.(runs := st.runs + [job]);
      match run(job.0, job.1)
      case Extracted => ran.(extractedAny := true)
      case ToolMissing => ran.(stopped := true)
      case ExtractFailed => ran
  }

  function ExtractAll(jobs: seq<(string, string)>, present: string -> bool,
                      run: (string, string) -> Outcome): Extraction
  {
    if jobs == [] then Extraction(false, false, [])
    else ExtractStep(ExtractAll(jobs[..|jobs| - 1], present, run), jobs[|jobs| - 1], present, run)
  }

  /** What `extract_debs_to_data` returns. */
  function ExtractResult(names: seq<string>, workDir: string, arch: string,
                         present: string -> bool, run: (string, string) -> Outcome): bool
  {
    var st := ExtractAll(Jobs(names, workDir, arch), present, run);
    !st.stopped && st.extractedAny
  }

  lemma ExtractNext(jobs: seq<(string, string)>, i: nat, present: string -> bool,
                    run: (string, string) -> Outcome)
    requires i < |jobs|
    ensures ExtractAll(jobs[..i + 1], present, run) == ExtractStep(ExtractAll(jobs[..i], present, run), jobs[i], present, run)
  {
    PrefixOfPrefix(jobs, i);
  }

  /** After an early return nothing changes. */
  lemma {:induction false} ExtractStopped(jobs: seq<(string, string)>, k: nat, present: string -> bool,
                                          run: (string, string) -> Outcome)
    requires k <= |jobs| && ExtractAll(jobs[..k], present, run).stopped
    ensures ExtractAll(jobs, present, run) == ExtractAll(jobs[..k], present, run)
  {
    if k < |jobs| {
      var p := jobs[..|jobs| - 1];
      assert p[..k] == jobs[..k];
      ExtractStopped(p, k, present, run);
    } else {
      assert jobs[..k] == jobs;
    }
  }

  /** Lines 112-120: the file of a name and its destination (computing the latter first changes
      nothing, as it has no effect). */
  method PathsFor(workDir: string, arch: string, name: string) returns (path: string, dest: string)
    ensures (path, dest) == JobOf(workDir, arch, name)
  {
    path := DebPath(workDir, name);
    dest := DestDir(workDir, name, arch);
  }

  /** Lines 101-136 (the directories made on the way are not modelled): the result and the runs made. */
  method ExtractDebsToData(names: seq<string>, workDir: string, arch: string,
                           present: string -> bool, run: (string, string) -> Outcome)
    returns (ok: bool, runs: seq<(string, string)>)
    ensures ok == ExtractResult(names, workDir, arch, present, run)
    ensures runs == ExtractAll(Jobs(names, workDir, arch), present, run).runs
  {
    ghost var jobs := Jobs(names, workDir, arch);
    runs := [];
    var extractedAny := false;
    for i := 0 to |names|
      invariant ExtractAll(jobs[..i], present, run) == Extraction(extractedAny, false, runs)
    {
      ExtractNext(jobs, i, present, run);
      JobsAt(names, workDir, arch, i);
      var path, dest := PathsFor(workDir, arch, names[i]);
      if !present(path) {
        continue;
      }
      runs := runs + [(path, dest)];
      var outcome := run(path, dest);
      if outcome == ToolMissing {
        ExtractStopped(jobs, i + 1, present, run);
        return false, runs;
      }
      if outcome == Extracted {
        extractedAny := true;
      }
    }
    assert jobs[..|names|] == jobs;
    if !extractedAny {
      return false, runs;
    }
    return true, runs;
  }

  /** A job whose file exists and whose run reports `outcome`. */
  predicate RunsWith(job: (string, string), present: string -> bool, run: (string, string) -> Outcome,
                     outcome: Outcome)
  {
    present(job.0) && run(job.0, job.1) == outcome
  }

  /** The loop returns early exactly when the tool is missing for some existing file. */
  lemma {:induction false} ExtractStopsIff(jobs: seq<(string, string)>, present: string -> bool,
                                           run: (string, string) -> Outcome)
    ensures ExtractAll(jobs, present, run).stopped <==>
            exists i :: 0 <= i < |jobs| && RunsWith(jobs[i], present, run, ToolMissing)
  {
    if jobs != [] {
      var n := |jobs| - 1;
      var p := jobs[..n];
      ExtractStopsIff(p, present, run);
      assert forall i :: 0 <= i < n ==> p[i] == jobs[i];
    }
  }

  /** Without an early return, `extracted_any` is set exactly when some existing file was extracted. */
  lemma {:induction false} ExtractAnyIff(jobs: seq<(string, string)>, present: string -> bool,
                                         run: (string, string) -> Outcome)
    requires !ExtractAll(jobs, present, run).stopped
    ensures ExtractAll(jobs, present, run).extractedAny <==>
            exists i :: 0 <= i < |jobs| && RunsWith(jobs[i], present, run, Extracted)
  {
    if jobs != [] {
      var n := |jobs| - 1;
      var p := jobs[..n];
      assert !ExtractAll(p, present, run).stopped;
      ExtractAnyIff(p, present, run);
      assert forall i :: 0 <= i < n ==> p[i] == jobs[i];
    }
  }

  /** `True` exactly when some existing file was extracted and the tool was never missing. */
  lemma ExtractResultIff(names: seq<string>, workDir: string, arch: string,
                         present: string -> bool, run: (string, string) -> Outcome)
    ensures ExtractResult(names, workDir, arch, present, run) <==>
            (exists i :: 0 <= i < |names| && RunsWith(JobOf(workDir, arch, names[i]), present, run, Extracted)) &&
            (forall i :: 0 <= i < |names| ==> !RunsWith(JobOf(workDir, arch, names[i]), present, run, ToolMissing))
  {
    var jobs := Jobs(names, workDir, arch);
    forall i | 0 <= i < |names| ensures jobs[i] == JobOf(workDir, arch, names[i]) {
      JobsAt(names, workDir, arch, i);
    }
    ExtractStopsIff(jobs, present, run);
    if !ExtractAll(jobs, present, run).stopped {
      ExtractAnyIff(jobs, present, run);
    }
  }

  /** Every run is of an existing file, in the order of the names; missing files are skipped. */
  lemma {:induction false} ExtractRuns(jobs: seq<(string, string)>, present: string -> bool,
                                       run: (string, string) -> Outcome, k: nat)
    requires k < |ExtractAll(jobs, present, run).runs|
    ensures exists i :: 0 <= i < |jobs| && present(jobs[i].0) && ExtractAll(jobs, present, run).runs[k] == jobs[i]
  {
    var n := |jobs| - 1;
    var p := jobs[..n];
    var before := ExtractAll(p, present, run);
    if k < |before.runs| {
      ExtractRuns(p, present, run, k);
      var i :| 0 <= i < |p| && present(p[i].0) && before.runs[k] == p[i];
      assert p[i] == jobs[i];
    } else {
      assert present(jobs[n].0) && ExtractAll(jobs, present, run).runs[k] == jobs[n];
    }
  }

  /** Whether a job's file exists. */
  function Existing(present: string -> bool): ((string, string)) -> bool
  {
    (job: (string, string)) => present(job.0)
  }

  /** Without a missing tool every existing file is run, in order. */
  lemma {:induction false} ExtractRunsAll(jobs: seq<(string, string)>, present: string -> bool,
                                          run: (string, string) -> Outcome)
    requires !ExtractAll(jobs, present, run).stopped
    ensures ExtractAll(jobs, present, run).runs == Filter(jobs, Existing(present))
  {
    if jobs != [] {
      var n := |jobs| - 1;
      var p := jobs[..n];
      assert !ExtractAll(p, present, run).stopped;
      ExtractRunsAll(p, present, run);
      FilterSnoc(jobs, Existing(present), n);
      assert jobs[..n + 1] == jobs;
    }
  }

  /** A basename holds no `/`. */
  lemma BasenameNoSlash(p: string)
    ensures '/' !in Basename(p)
  {
    var k := LastIndexOf(p, '/');
    forall j | 0 <= j < |Basename(p)| ensures Basename(p)[j] != '/' {
      assert Basename(p)[j] == p[k + 1 + j];
    }
  }

  /** The package directory is the part of the name before its first `_`, or its stem. */
  lemma PackageDirOf(base: string)
    ensures '_' in base ==> exists k :: 0 <= k < |base| && base[k] == '_' && '_' !in base[..k] &&
                                        PackageDir(base) == base[..k]
    ensures '_' !in base ==> PackageDir(base) == SplitextRoot(base)
    ensures |PackageDir(base)| <= |base| && PackageDir(base) == base[..|PackageDir(base)|]
  {
    if '_' in base {
      var k := IndexWhere(base, x => x == '_');
      assert forall j :: 0 <= j < k ==> base[..k][j] == base[j];
      SplitCharAt(base, '_', k);
    }
  }

  /** Under a working directory not ending in `/`, with a package name that is not empty and an
      architecture that is not absolute, the destination is `<work_dir>/data/<pkg>/<arch>`. */
  lemma DestDirLayout(workDir: string, name: string, arch: string)
    requires workDir != [] && !EndsWith(workDir, "/") && !StartsWith(arch, "/")
    requires PackageDir(Basename(DebPath(workDir, name))) != []
    ensures DestDir(workDir, name, arch) ==
            workDir + "/data/" + PackageDir(Basename(DebPath(workDir, name))) + "/" + arch
  {
    var base := Basename(DebPath(workDir, name));
    var pkg := PackageDir(base);
    BasenameNoSlash(DebPath(workDir, name));
    PackageDirOf(base);
    assert pkg[0] == base[0] && pkg[|pkg| - 1] == base[|pkg| - 1];
    var data := workDir + "/data";
    assert PathJoin(workDir, "data") == data;
    assert data[|data| - 1] == 'a';
    assert PathJoin(data, pkg) == data + "/" + pkg;
    assert (data + "/" + pkg)[|data + "/" + pkg| - 1] == pkg[|pkg| - 1];
  }

  // ---------------------------------------------------------------------------------------------
  // find_changes_file and the tarball name
  // ---------------------------------------------------------------------------------------------

  /** `max(candidates, key=os.path.getmtime)`: a later candidate replaces the current one only when it
      is strictly newer. */
  function Newest(candidates: seq<string>, mtime: string -> int): string
    requires candidates != []
  {
    if |candidates| == 1 then candidates[0]
    else
      var best := Newest(candidates[..|candidates| - 1], mtime);
      var last := candidates[|candidates| - 1];
      if mtime(last) > mtime(best) then last else best
  }

  /** The newest candidate is the first one with the greatest time. */
  lemma {:induction false} NewestIsFirstMax(candidates: seq<string>, mtime: string -> int)
    requires candidates != []
    ensures exists i :: 0 <= i < |candidates| && candidates[i] == Newest(candidates, mtime) &&
                        (forall j :: 0 <= j < |candidates| ==> mtime(candidates[j]) <= mtime(candidates[i])) &&
                        (forall j :: 0 <= j < i ==> mtime(candidates[j]) < mtime(candidates[i]))
  {
    if |candidates| > 1 {
      var n := |candidates| - 1;
      var p := candidates[..n];
      NewestIsFirstMax(p, mtime);
      var i :| 0 <= i < |p| && p[i] == Newest(p, mtime) &&
               (forall j :: 0 <= j < |p| ==> mtime(p[j]) <= mtime(p[i])) &&
               (forall j :: 0 <= j < i ==> mtime(p[j]) < mtime(p[i]));
      assert forall j :: 0 <= j < n ==> p[j] == candidates[j];
      var m := mtime(p[i]);
      if mtime(candidates[n]) > m {
        assert candidates[n] == Newest(candidates, mtime);
        assert forall j :: 0 <= j < n ==> mtime(candidates[j]) < mtime(candidates[n]);
      } else {
        assert candidates[i] == Newest(candidates, mtime);
        assert forall j :: 0 <= j <= n ==> mtime(candidates[j]) <= m;
      }
    }
  }

  /** `find_changes_file(changes_file, output_dir)`: `present` is `os.path.exists`, `glob` lists the
      files a pattern matches, `mtime` is `os.path.getmtime` and `abspath` is `os.path.abspath`. */
  function FindChangesFile(changesFile: string, outputDir: string, present: string -> bool,
                           glob: string -> seq<string>, mtime: string -> int, abspath: string -> string)
    : Result<string>
  {
    if changesFile != [] then
      if present(changesFile) then Ok(abspath(changesFile))
      else Err(FileNotFoundError("Specified --changes-file not found: " + changesFile))
    else
      var candidates := glob(PathJoin(if outputDir != [] then outputDir else ".", "*.changes"));
      if candidates == [] then Err(FileNotFoundError("No .changes files found in directory: " + outputDir))
      else Ok(abspath(Newest(candidates, mtime)))
  }

  /** An explicit path is used when it exists and raises otherwise; the directory is never searched. */
  lemma FindExplicit(changesFile: string, outputDir: string, present: string -> bool,
                     glob: string -> seq<string>, mtime: string -> int, abspath: string -> string,
                     glob': string -> seq<string>, mtime': string -> int)
    requires changesFile != []
    ensures FindChangesFile(changesFile, outputDir, present, glob, mtime, abspath).Ok? <==> present(changesFile)
    ensures FindChangesFile(changesFile, outputDir, present, glob, mtime, abspath).Ok? ==>
            FindChangesFile(changesFile, outputDir, present, glob, mtime, abspath).value == abspath(changesFile)
    ensures FindChangesFile(changesFile, outputDir, present, glob, mtime, abspath) ==
            FindChangesFile(changesFile, outputDir, present, glob', mtime', abspath)
  {
  }

  /** Without an explicit path the newest candidate of the directory (`.` when empty) is used, and an
      empty directory raises `FileNotFoundError`. */
  lemma FindNewest(outputDir: string, present: string -> bool, glob: string -> seq<string>,
                   mtime: string -> int, abspath: string -> string)
    ensures var candidates := glob(PathJoin(if outputDir != [] then outputDir else ".", "*.changes"));
            var r := FindChangesFile([], outputDir, present, glob, mtime, abspath);
            (r.Err? <==> candidates == []) &&
            (r.Err? ==> r.error.FileNotFoundError?) &&
            (r.Ok? ==> exists i :: 0 <= i < |candidates| && r.value == abspath(candidates[i]) &&
                                   forall j :: 0 <= j < |candidates| ==> mtime(candidates[j]) <= mtime(candidates[i]))
  {
    var candidates := glob(PathJoin(if outputDir != [] then outputDir else ".", "*.changes"));
    if candidates != [] {
      NewestIsFirstMax(candidates, mtime);
    }
  }

  /** `re.sub(r'\.changes$', '.tar.gz', base)`: without `MULTILINE`, `$` matches at the end and also
      just before a final newline. */
  function SubChanges(base: string): string
  {
    if EndsWith(base, ".changes") then base[..|base| - 8] + ".tar.gz"
    else if EndsWith(base, ".changes\n") then base[..|base| - 9] + ".tar.gz\n"
    else base
  }

  /** Lines 184-187: the tarball name. */
  function TarName(base: string): string
  {
    var t := SubChanges(base);
    if t == base then base + ".tar.gz" else t
  }

  /** A trailing `.changes` becomes `.tar.gz`; a name without one gets `.tar.gz` appended. */
  lemma TarNameOf(base: string)
    ensures EndsWith(base, ".changes") ==> TarName(base) == base[..|base| - 8] + ".tar.gz"
    ensures EndsWith(base, ".changes\n") ==> TarName(base) == base[..|base| - 9] + ".tar.gz\n"
    ensures !EndsWith(base, ".changes") && !EndsWith(base, ".changes\n") ==> TarName(base) == base + ".tar.gz"
    ensures EndsWith(TarName(base), ".tar.gz") || EndsWith(TarName(base), ".tar.gz\n")
  {
    var t := SubChanges(base);
    if EndsWith(base, ".changes") {
      assert base[|base| - 1] == 's';
      assert !EndsWith(base, ".changes\n");
      assert |t| == |base| - 1;
    } else if EndsWith(base, ".changes\n") {
      assert |t| == |base| - 1;
    }
  }
}
