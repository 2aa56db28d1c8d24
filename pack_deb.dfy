/** `ubuntu/pack_deb.py`, class `PackagePacker`: which manifests `parse_manifests` reads and in what
    order, how `merge_manifests_from_folder` concatenates the manifests found under a folder, and the
    package list `get_deb_list` hands to `mmdebstrap`. The file system is a value (its files with
    their contents, and its directories); the listing `os.walk` produces is a parameter. */
module PackDeb {

  import opened Wrappers
  import opened Collections
  import opened Text
  import opened Helpers

  /** The files (with their contents) and the directories of the file system. */
  datatype Disk = Disk(files: map<string, string>, dirs: set<string>)

  /** `os.path.exists` */
  predicate Exists(disk: Disk, path: string)
  {
    path in disk.files || path in disk.dirs
  }

  /** The value of `DEBS`: a list of entries, or `None` after a parse that returned `None`. */
  type Debs = Option<seq<DebEntry>>

  /** `parse_debs_manifest(path)` against the disk. `Path.is_file` looks up the path as pathlib prints
      it; `os.path.isfile` looks up the path as given, and a given path with a trailing `/` or `/.`
      names no file, since the file is no directory. */
  function ReadManifest(disk: Disk, path: string): Result<Debs>
  {
    var key := StripDirMarks(path);
    DebsManifest(path, key in disk.files, key == path && key in disk.files,
                 if key in disk.files then disk.files[key] else [])
  }

  /** `parse_debs_manifest` returns `None` exactly for a manifest file named with a trailing `/` or
      `/.`; a path ending otherwise gives entries or `ValueError`. */
  lemma ReadManifestNone(disk: Disk, path: string)
    ensures ReadManifest(disk, path) == Ok(None) <==>
            StripDirMarks(path) != path && StripDirMarks(path) in disk.files &&
            EndsWith(PathName(path), ".manifest")
    ensures ReadManifest(disk, path).Err? <==>
            StripDirMarks(path) !in disk.files || !EndsWith(PathName(path), ".manifest")
    ensures ReadManifest(disk, path).Err? ==> ReadManifest(disk, path).error.ValueError?
    ensures path != [] && path[|path| - 1] != '/' && path[|path| - 1] != '.' ==>
            ReadManifest(disk, path) != Ok(None)
  {
    if path != [] && path[|path| - 1] != '/' && path[|path| - 1] != '.' {
      PlainEnding(path);
    }
  }

  /** A path pathlib prints as it is reads as entries or fails with `ValueError`. */
  lemma PlainNeverNone(disk: Disk, path: string)
    requires StripDirMarks(path) == path
    ensures ReadManifest(disk, path).Ok? ==> ReadManifest(disk, path).value.Some?
    ensures ReadManifest(disk, path).Err? ==> ReadManifest(disk, path).error.ValueError?
  {
  }

  /** An instance: `x.manifest/` passes the test of line 75 and reads as `None`, and `x.manifest/.`
      does the same. */
  lemma TrailingSlashExample()
    ensures ReadManifest(Disk(map["x.manifest" := "vim\n"], {}), "x.manifest/") == Ok(None)
    ensures ReadManifest(Disk(map["x.manifest" := "vim\n"], {}), "x.manifest/.") == Ok(None)
  {
    var disk := Disk(map["x.manifest" := "vim\n"], {});
    assert "x.manifest/"[..10] == "x.manifest";
    PlainEnding("x.manifest");
    assert StripDirMarks("x.manifest/") == "x.manifest";
    assert "x.manifest/."[..11] == "x.manifest/";
    assert StripDirMarks("x.manifest/.") == "x.manifest";
    NoSlashInName();
    assert PathName("x.manifest/") == "x.manifest";
    assert PathName("x.manifest/.") == "x.manifest";
    assert "x.manifest"[1..] == ".manifest";
  }

  lemma NoSlashInName()
    ensures LastIndexOf("x.manifest", '/') == -1
  {
    var s := "x.manifest";
    forall j | 0 <= j < |s| ensures s[j] != '/' {
      assert j < 5 ==> s[j] in "x.man";
    }
  }

  // ---------------------------------------------------------------------------------------------
  // merge_manifests_from_folder (lines 112-141)
  // ---------------------------------------------------------------------------------------------

  /** One directory as `os.walk` lists it: its path relative to the folder (`.` for the folder itself)
      and the names of its files. */
  datatype WalkDir = WalkDir(rel: string, files: seq<string>)

  /** The `root` `os.walk` gives for a directory. */
  function WalkRoot(folder: string, rel: string): string
  {
    if rel == "." then folder else PathJoin(folder, rel)
  }

  /** Whether line 125 skips a directory. */
  predicate Skipped(filter: string, rel: string)
  {
    filter != [] && !Contains(rel, filter)
  }

  /** Whether lines 128-134 copy a file: it is named `<image_type>.manifest`, it exists, and it is not
      empty. A file that cannot be read is skipped (lines 135-136). */
  predicate Copied(disk: Disk, root: string, file: string, imageType: string)
  {
    var path := PathJoin(root, file);
    file == imageType + ".manifest" && path in disk.files && disk.files[path] != []
  }

  /** Lines 127-134 for one directory: the texts it contributes, in listing order. */
  function DirPieces(disk: Disk, root: string, files: seq<string>, imageType: string): seq<string>
  {
    if files == [] then []
    else
      var before := DirPieces(disk, root, files[..|files| - 1], imageType);
      var file := files[|files| - 1];
      if Copied(disk, root, file, imageType) then before + [disk.files[PathJoin(root, file)]] else before
  }

  /** Lines 124-134: the texts of the whole walk, in walk order. */
  function Pieces(disk: Disk, folder: string, imageType: string, filter: string, walk: seq<WalkDir>): seq<string>
  {
    if walk == [] then []
    else
      var before := Pieces(disk, folder, imageType, filter, walk[..|walk| - 1]);
      var dir := walk[|walk| - 1];
      if Skipped(filter, dir.rel) then before
      else before + DirPieces(disk, WalkRoot(folder, dir.rel), dir.files, imageType)
  }

  /** Where the merged manifest goes (line 121). */
  function MergedPath(tempDir: string, imageType: string): string
  {
    PathJoin(tempDir, imageType + ".manifest")
  }

  /** `merge_manifests_from_folder(folder, image_type, filter)`: the merged path (`None` for a folder
      that is not a directory, or when the merged file cannot be created) and the disk after.
      The pieces are read from the disk as it was before the merged file is written. */
  function Merge(disk: Disk, tempDir: string, folder: string, imageType: string, filter: string,
                 walk: seq<WalkDir>, writable: bool): (Option<string>, Disk)
  {
    if folder !in disk.dirs || !writable then (None, disk)
    else
      var merged := MergedPath(tempDir, imageType);
      (Some(merged), disk.(files := disk.files[merged := Concat(Pieces(disk, folder, imageType, filter, walk))]))
  }

  lemma DirPiecesNext(disk: Disk, root: string, files: seq<string>, imageType: string, j: nat)
    requires j < |files|
    ensures DirPieces(disk, root, files[..j + 1], imageType) ==
            DirPieces(disk, root, files[..j], imageType) +
            (if Copied(disk, root, files[j], imageType) then [disk.files[PathJoin(root, files[j])]] else [])
  {
    PrefixOfPrefix(files, j);
  }

  lemma PiecesNext(disk: Disk, folder: string, imageType: string, filter: string, walk: seq<WalkDir>, i: nat)
    requires i < |walk|
    ensures Pieces(disk, folder, imageType, filter, walk[..i + 1]) ==
            Pieces(disk, folder, imageType, filter, walk[..i]) +
            (if Skipped(filter, walk[i].rel) then []
             else DirPieces(disk, WalkRoot(folder, walk[i].rel), walk[i].files, imageType))
  {
    PrefixOfPrefix(walk, i);
  }

  /** Concatenating one more text. */
  lemma ConcatSnoc(parts: seq<string>, text: string)
    ensures Concat(parts + [text]) == Concat(parts) + text
  {
    ConcatAppend(parts, [text]);
    assert Concat([text]) == text + Concat([]);
  }

  /** Whether file `j` of a directory is copied and holds `text`. */
  predicate DirCopiesAt(disk: Disk, root: string, files: seq<string>, imageType: string, j: int, text: string)
  {
    0 <= j < |files| && Copied(disk, root, files[j], imageType) && disk.files[PathJoin(root, files[j])] == text
  }

  /** Whether file `j` of directory `i` of the walk is copied and holds `text`. */
  predicate CopiesAt(disk: Disk, folder: string, imageType: string, filter: string, walk: seq<WalkDir>,
                     i: int, j: int, text: string)
  {
    0 <= i < |walk| && !Skipped(filter, walk[i].rel) &&
    DirCopiesAt(disk, WalkRoot(folder, walk[i].rel), walk[i].files, imageType, j, text)
  }

  /** A merge copies a text exactly when some file named `<image_type>.manifest`, not empty and in a
      directory the filter keeps, holds it. */
  lemma {:induction false} PiecesFrom(disk: Disk, folder: string, imageType: string, filter: string,
                                      walk: seq<WalkDir>, text: string)
    ensures text in Pieces(disk, folder, imageType, filter, walk) <==>
            exists i, j :: CopiesAt(disk, folder, imageType, filter, walk, i, j, text)
  {
    if walk != [] {
      var n := |walk| - 1;
      var p := walk[..n];
      var dir := walk[n];
      var root := WalkRoot(folder, dir.rel);
      PiecesFrom(disk, folder, imageType, filter, p, text);
      DirPiecesFrom(disk, root, dir.files, imageType, text);
      if text in Pieces(disk, folder, imageType, filter, walk) {
        if text in Pieces(disk, folder, imageType, filter, p) {
          var i, j :| CopiesAt(disk, folder, imageType, filter, p, i, j, text);
          assert p[i] == walk[i];
          assert CopiesAt(disk, folder, imageType, filter, walk, i, j, text);
        } else {
          var j :| DirCopiesAt(disk, root, dir.files, imageType, j, text);
          assert CopiesAt(disk, folder, imageType, filter, walk, n, j, text);
        }
      }
      if exists i, j :: CopiesAt(disk, folder, imageType, filter, walk, i, j, text) {
        var i, j :| CopiesAt(disk, folder, imageType, filter, walk, i, j, text);
        if i < n {
          assert p[i] == walk[i];
          assert CopiesAt(disk, folder, imageType, filter, p, i, j, text);
        } else {
          assert i == n && walk[i] == dir;
          assert DirCopiesAt(disk, root, dir.files, imageType, j, text);
          assert text in DirPieces(disk, root, dir.files, imageType);
        }
      }
    }
  }

  lemma {:induction false} DirPiecesFrom(disk: Disk, root: string, files: seq<string>, imageType: string, text: string)
    ensures text in DirPieces(disk, root, files, imageType) <==>
            exists j :: DirCopiesAt(disk, root, files, imageType, j, text)
  {
    if files != [] {
      var n := |files| - 1;
      var p := files[..n];
      DirPiecesFrom(disk, root, p, imageType, text);
      if text in DirPieces(disk, root, files, imageType) {
        if text in DirPieces(disk, root, p, imageType) {
          var j :| DirCopiesAt(disk, root, p, imageType, j, text);
          assert p[j] == files[j];
          assert DirCopiesAt(disk, root, files, imageType, j, text);
        } else {
          assert DirCopiesAt(disk, root, files, imageType, n, text);
        }
      }
      if exists j :: DirCopiesAt(disk, root, files, imageType, j, text) {
        var j :| DirCopiesAt(disk, root, files, imageType, j, text);
        if j < n {
          assert p[j] == files[j];
          assert DirCopiesAt(disk, root, p, imageType, j, text);
        }
      }
    }
  }

  /** The entries of texts read one after the other. */
  function EntriesOfTexts(texts: seq<string>): seq<DebEntry>
  {
    if texts == [] then [] else Entries(ReadLines(texts[0])) + EntriesOfTexts(texts[1..])
  }

  /** When every copied manifest ends with a newline, the merged manifest holds the entries of each,
      in walk order. (A manifest whose last line has no newline runs into the first line of the next.) */
  lemma {:induction false} MergedEntries(texts: seq<string>)
    requires forall k :: 0 <= k < |texts| ==> texts[k] != [] && texts[k][|texts[k]| - 1] == '\n'
    ensures Entries(ReadLines(Concat(texts))) == EntriesOfTexts(texts)
  {
    if texts != [] {
      MergedEntries(texts[1..]);
      ReadLinesAppend(texts[0], Concat(texts[1..]));
      FlatMapAppend(ReadLines(texts[0]), ReadLines(Concat(texts[1..])), EntryOf);
    }
  }

  /** The merged manifest always reads without `ValueError`. */
  lemma MergedReadable(disk: Disk, tempDir: string, folder: string, imageType: string, filter: string,
                       walk: seq<WalkDir>, writable: bool)
    ensures var m := Merge(disk, tempDir, folder, imageType, filter, walk, writable);
            m.0.Some? ==> m.0.value == MergedPath(tempDir, imageType) &&
                          ReadManifest(m.1, m.0.value) ==
                          Ok(Some(Entries(ReadLines(Concat(Pieces(disk, folder, imageType, filter, walk))))))
    ensures folder !in disk.dirs ==> Merge(disk, tempDir, folder, imageType, filter, walk, writable) == (None, disk)
  {
    ManifestPathName(tempDir, imageType);
  }

  /** A path `<dir>/<image_type>.manifest` passes the name check of `parse_debs_manifest`, and pathlib
      prints it as it is. */
  lemma ManifestPathName(dir: string, imageType: string)
    ensures EndsWith(PathName(PathJoin(dir, imageType + ".manifest")), ".manifest")
    ensures StripDirMarks(PathJoin(dir, imageType + ".manifest")) == PathJoin(dir, imageType + ".manifest")
  {
    var p := PathJoin(dir, imageType + ".manifest");
    var name := imageType + ".manifest";
    JoinEndsWith(dir, name);
    assert name[|imageType|..] == ".manifest";
    SuffixOfSuffix(p, name, ".manifest");
    assert p[|p| - 1] == 't';
    PlainEnding(p);
    ExtensionNoSlash();
    PathNameSuffix(p, ".manifest");
  }

  lemma ExtensionNoSlash()
    ensures '/' !in ".manifest"
  {
    var e := ".manifest";
    forall j | 0 <= j < |e| ensures e[j] != '/' {
      assert j < 5 ==> e[j] in ".mani";
    }
  }

  /** `os.path.join(a, b)` ends with `b`. */
  lemma JoinEndsWith(a: string, b: string)
    ensures EndsWith(PathJoin(a, b), b)
  {
    var p := PathJoin(a, b);
    if p == a + b {
      assert p[|a|..] == b;
    } else if p == a + "/" + b {
      assert p[|a| + 1..] == b;
    }
  }

  /** The last component of a path keeps a suffix of the path that holds no `/`. */
  lemma PathNameSuffix(p: string, suffix: string)
    requires EndsWith(p, suffix) && suffix != [] && '/' !in suffix && StripDirMarks(p) == p
    ensures EndsWith(PathName(p), suffix)
  {
    var n := |p| - |suffix|;
    NoSlashInTail(p, suffix);
    var k := LastIndexOf(p, '/');
    assert PathName(p) == p[k + 1..];
    TailEndsWith(p, k + 1, n);
  }

  lemma NoSlashInTail(p: string, suffix: string)
    requires EndsWith(p, suffix) && '/' !in suffix
    ensures forall j :: |p| - |suffix| <= j < |p| ==> p[j] != '/'
  {
    var n := |p| - |suffix|;
    forall j | n <= j < |p| ensures p[j] != '/' {
      assert p[j] == suffix[j - n] && suffix[j - n] in suffix;
    }
  }

  /** A later tail of a text is a suffix of an earlier one. */
  lemma TailEndsWith(s: string, a: nat, b: nat)
    requires a <= b <= |s|
    ensures EndsWith(s[a..], s[b..])
  {
    assert s[a..][b - a..] == s[b..];
  }

  // ---------------------------------------------------------------------------------------------
  // parse_manifests (lines 145-192)
  // ---------------------------------------------------------------------------------------------

  /** The constructor arguments `parse_manifests` uses; an absent argument is the empty string. */
  datatype Config = Config(manifestPath: string, imageType: string, variant: string, qcFolder: string,
                           tempDir: string, scriptDir: string)

  /** Lines 157 and 168: `<script dir>/packages/<kind>/<image_type>.manifest`. */
  function DefaultManifest(cfg: Config, kind: string): string
  {
    PathJoin(PathJoin(PathJoin(cfg.scriptDir, "packages"), kind), cfg.imageType + ".manifest")
  }

  /** `DEBS.extend(parse_debs_manifest(...))`: a `DEBS` of `None` has no `extend`, which Python finds
      before the parse runs, and extending by `None` raises `TypeError`. */
  function Extend(debs: Debs, more: Result<Debs>): Result<Debs>
  {
    if debs.None? then Err(AttributeError)
    else if more.Err? then Err(more.error)
    else if more.value.None? then Err(TypeError)
    else Ok(Some(debs.value + more.value.value))
  }

  /** Lines 157-172 from `DEBS` equal to `start`: the base manifest replaces it where it exists, then
      the qcom manifest is appended for the `qcom` variant where it exists. */
  function Defaults(cfg: Config, disk: Disk, start: Debs): Result<Debs>
  {
    DefaultsFrom(disk, start, DefaultManifest(cfg, "base"), DefaultManifest(cfg, "qcom"), cfg.variant == "qcom")
  }

  /** `Defaults` with the two manifest paths given. */
  function DefaultsFrom(disk: Disk, start: Debs, base: string, qcom: string, isQcom: bool): Result<Debs>
  {
    var fromBase := if Exists(disk, base) then ReadManifest(disk, base) else Ok(start);
    if fromBase.Err? || !isQcom || !Exists(disk, qcom) then fromBase
    else Extend(fromBase.value, ReadManifest(disk, qcom))
  }

  /** Lines 175-188: the merged base manifests of the folder, then its merged qcom manifests for the
      `qcom` variant. */
  function FromFolder(cfg: Config, disk: Disk, debs: Debs, walk: seq<WalkDir>, writable: bool)
    : (Result<Debs>, Disk)
  {
    var first := Merge(disk, cfg.tempDir, cfg.qcFolder, cfg.imageType, "base", walk, writable);
    var withBase := if first.0.Some? then Extend(debs, ReadManifest(first.1, first.0.value)) else Ok(debs);
    if withBase.Err? || cfg.variant != "qcom" then (withBase, first.1)
    else
      var second := Merge(first.1, cfg.tempDir, cfg.qcFolder, cfg.imageType, "qcom", walk, writable);
      (if second.0.Some? then Extend(withBase.value, ReadManifest(second.1, second.0.value)) else withBase, second.1)
  }

  /** Whether a default manifest exists for the configuration. */
  predicate FoundDefault(cfg: Config, disk: Disk)
  {
    Exists(disk, DefaultManifest(cfg, "base")) || (cfg.variant == "qcom" && Exists(disk, DefaultManifest(cfg, "qcom")))
  }

  /** Lines 145-192 on values: the packages and the disk after. `fixed` false is the code as written,
      which ends with `exit(1)` whenever there is neither an explicit manifest nor a `qc_folder`;
      `fixed` true exits only when no default manifest was found either. */
  function Manifests(cfg: Config, disk: Disk, start: Debs, walk: seq<WalkDir>, writable: bool, fixed: bool)
    : (Result<Debs>, Disk)
  {
    if cfg.manifestPath != [] then (ReadManifest(disk, cfg.manifestPath), disk)
    else
      var debs := Defaults(cfg, disk, start);
      if debs.Err? then (debs, disk)
      else if cfg.qcFolder != [] then FromFolder(cfg, disk, debs.value, walk, writable)
      else if fixed && FoundDefault(cfg, disk) then (debs, disk)
      else (Err(Exit(1)), disk)
  }

  /** An explicit manifest is read alone: nothing else about the disk, the walk or the starting list
      matters, and the disk is not changed. */
  lemma ExplicitAlone(cfg: Config, disk: Disk, start: Debs, walk: seq<WalkDir>, writable: bool, fixed: bool,
                      disk': Disk, start': Debs, walk': seq<WalkDir>, writable': bool, fixed': bool)
    requires cfg.manifestPath != []
    requires var key := StripDirMarks(cfg.manifestPath);
             (key in disk.files) == (key in disk'.files) && (key in disk.files ==> disk.files[key] == disk'.files[key])
    ensures Manifests(cfg, disk, start, walk, writable, fixed).0 == Manifests(cfg, disk', start', walk', writable', fixed').0
    ensures Manifests(cfg, disk, start, walk, writable, fixed).1 == disk
  {
  }

  /** As written, without an explicit manifest and without `qc_folder` the call never succeeds: it
      exits with status 1 even when the base manifest was found and read. */
  lemma AsWrittenAlwaysExits(cfg: Config, disk: Disk, start: Debs, walk: seq<WalkDir>, writable: bool)
    requires cfg.manifestPath == [] && cfg.qcFolder == []
    ensures Manifests(cfg, disk, start, walk, writable, false).0.Err?
    ensures Defaults(cfg, disk, start).Ok? ==> Manifests(cfg, disk, start, walk, writable, false).0 == Err(Exit(1))
  {
  }

  /** An instance: the base manifest `/s/packages/base/server.manifest` lists one package and reads
      without error, and the call still exits with status 1. */
  lemma AsWrittenExample()
    ensures var cfg := Config("", "server", "base", "", "/tmp", "/s");
            var disk := Disk(map[DefaultManifest(cfg, "base") := "vim\t2\n"], {});
            Defaults(cfg, disk, Some([])) == Ok(Some([DebEntry("vim", Some("2"))])) &&
            Manifests(cfg, disk, Some([]), [], true, false).0 == Err(Exit(1))
  {
    var cfg := Config("", "server", "base", "", "/tmp", "/s");
    var base := DefaultManifest(cfg, "base");
    var disk := Disk(map[base := "vim\t2\n"], {});
    ManifestPathName(PathJoin(PathJoin(cfg.scriptDir, "packages"), "base"), cfg.imageType);
    ExampleEntries();
    assert ReadManifest(disk, base) == Ok(Some([DebEntry("vim", Some("2"))]));
    AsWrittenAlwaysExits(cfg, disk, Some([]), [], true);
  }

  lemma ExampleEntries()
    ensures Entries(ReadLines("vim\t2\n")) == [DebEntry("vim", Some("2"))]
  {
    var text := "vim\t2\n";
    ExampleLines();
    ExampleEntry();
    assert [text][..0] == [];
    assert FlatMap([text], EntryOf) == FlatMap([], EntryOf) + EntryOf(text);
  }

  lemma ExampleLines()
    ensures ReadLines("vim\t2\n") == ["vim\t2\n"]
  {
    ReadLinesOne("vim\t2");
    assert "vim\t2" + "\n" == "vim\t2\n";
  }

  lemma ExampleEntry()
    ensures EntryOf("vim\t2\n") == [DebEntry("vim", Some("2"))]
  {
    var e := DebEntry("vim", Some("2"));
    var line := "vim\t2";
    StripSnocSpace(line, '\n');
    EntryRoundTrip(e);
    assert EntryLine(e) == line;
    assert line + ['\n'] == "vim\t2\n";
  }

  /** With the correction, the call fails without an explicit manifest and without `qc_folder`
      exactly when a default manifest fails to read or none exists. */
  lemma FixedExitsOnlyWithoutManifest(cfg: Config, disk: Disk, start: Debs, walk: seq<WalkDir>, writable: bool)
    requires cfg.manifestPath == [] && cfg.qcFolder == []
    ensures Manifests(cfg, disk, start, walk, writable, true).0.Err? <==>
            Defaults(cfg, disk, start).Err? || !FoundDefault(cfg, disk)
    ensures Manifests(cfg, disk, start, walk, writable, true).0 == Err(Exit(1)) <==>
            Defaults(cfg, disk, start).Ok? && !FoundDefault(cfg, disk)
    ensures Manifests(cfg, disk, start, walk, writable, true).0.Ok? ==>
            Manifests(cfg, disk, start, walk, writable, true).0 == Defaults(cfg, disk, start)
  {
    var r := Manifests(cfg, disk, start, walk, writable, true).0;
    var d := Defaults(cfg, disk, start);
    if d.Err? {
      assert r == d;
      assert d.error != Exit(1) by {
        DefaultsErrors(cfg, disk, start);
      }
    }
  }

  /** A default manifest fails to read only with `ValueError`, and never reads as `None`; the only
      other failure is the `extend` of a `DEBS` that was already `None` when the base manifest is
      missing. A list stays a list. */
  lemma DefaultsErrors(cfg: Config, disk: Disk, start: Debs)
    ensures Defaults(cfg, disk, start).Err? ==>
            Defaults(cfg, disk, start).error.ValueError? ||
            (Defaults(cfg, disk, start).error == AttributeError && start.None?)
    ensures start.Some? && Defaults(cfg, disk, start).Ok? ==> Defaults(cfg, disk, start).value.Some?
  {
    ManifestPathName(PathJoin(PathJoin(cfg.scriptDir, "packages"), "base"), cfg.imageType);
    ManifestPathName(PathJoin(PathJoin(cfg.scriptDir, "packages"), "qcom"), cfg.imageType);
    DefaultsFromErrors(disk, start, DefaultManifest(cfg, "base"), DefaultManifest(cfg, "qcom"), cfg.variant == "qcom");
  }

  /** `DefaultsErrors` for any two paths pathlib prints as they are. */
  lemma DefaultsFromErrors(disk: Disk, start: Debs, base: string, qcom: string, isQcom: bool)
    requires StripDirMarks(base) == base && StripDirMarks(qcom) == qcom
    ensures var d := DefaultsFrom(disk, start, base, qcom, isQcom);
            && (d.Err? ==> d.error.ValueError? || (d.error == AttributeError && start.None?))
            && (start.Some? && d.Ok? ==> d.value.Some?)
  {
    PlainNeverNone(disk, base);
    PlainNeverNone(disk, qcom);
  }

  /** The qcom manifests, default or merged, are read only for the `qcom` variant. */
  lemma QcomOnlyForQcom(cfg: Config, disk: Disk, start: Debs, walk: seq<WalkDir>, writable: bool)
    requires cfg.variant != "qcom"
    ensures Defaults(cfg, disk, start) ==
            if Exists(disk, DefaultManifest(cfg, "base")) then ReadManifest(disk, DefaultManifest(cfg, "base")) else Ok(start)
    ensures var first := Merge(disk, cfg.tempDir, cfg.qcFolder, cfg.imageType, "base", walk, writable);
            FromFolder(cfg, disk, start, walk, writable) ==
            (if first.0.Some? then Extend(start, ReadManifest(first.1, first.0.value)) else Ok(start), first.1)
  {
  }

  /** With a folder, the packages are the defaults followed by the folder's merged base manifests and
      then, for `qcom`, its merged qcom manifests; no parse of a merged file fails. */
  lemma FolderOrder(cfg: Config, disk: Disk, debs: seq<DebEntry>, walk: seq<WalkDir>, writable: bool)
    requires cfg.qcFolder in disk.dirs && writable
    ensures var merged := MergedPath(cfg.tempDir, cfg.imageType);
            var base := Pieces(disk, cfg.qcFolder, cfg.imageType, "base", walk);
            var d1 := disk.(files := disk.files[merged := Concat(base)]);
            var qcom := Pieces(d1, cfg.qcFolder, cfg.imageType, "qcom", walk);
            FromFolder(cfg, disk, Some(debs), walk, writable).0 ==
            Ok(Some(debs + Entries(ReadLines(Concat(base))) +
                    (if cfg.variant == "qcom" then Entries(ReadLines(Concat(qcom))) else [])))
    ensures FromFolder(cfg, disk, None, walk, writable).0 == Err(AttributeError)
  {
    var merged := MergedPath(cfg.tempDir, cfg.imageType);
    var base := Pieces(disk, cfg.qcFolder, cfg.imageType, "base", walk);
    var d1 := disk.(files := disk.files[merged := Concat(base)]);
    MergedReadable(disk, cfg.tempDir, cfg.qcFolder, cfg.imageType, "base", walk, writable);
    var e1 := Entries(ReadLines(Concat(base)));
    assert ReadManifest(d1, merged) == Ok(Some(e1));
    assert Merge(disk, cfg.tempDir, cfg.qcFolder, cfg.imageType, "base", walk, writable) == (Some(merged), d1);
    assert Extend(None, ReadManifest(d1, merged)) == Err(AttributeError);
    assert Extend(Some(debs), ReadManifest(d1, merged)) == Ok(Some(debs + e1));
    if cfg.variant == "qcom" {
      var qcom := Pieces(d1, cfg.qcFolder, cfg.imageType, "qcom", walk);
      MergedReadable(d1, cfg.tempDir, cfg.qcFolder, cfg.imageType, "qcom", walk, writable);
      var d2 := d1.(files := d1.files[merged := Concat(qcom)]);
      assert ReadManifest(d2, merged) == Ok(Some(Entries(ReadLines(Concat(qcom)))));
    } else {
      assert debs + e1 + [] == debs + e1;
    }
  }

  // ---------------------------------------------------------------------------------------------
  // get_deb_list (lines 194-208)
  // ---------------------------------------------------------------------------------------------

  /** Line 203 for one entry: `package=version` with both stripped when the version is not empty,
      else the package as it is. */
  function DebSpec(e: DebEntry): string
  {
    if e.version.Some? && e.version.value != [] then Strip(e.package) + "=" + Strip(e.version.value)
    else e.package
  }

  /** Whether `s` is in the list of lines 202-205: `ca-certificates`, or the spec of an entry. */
  predicate InDebList(debs: seq<DebEntry>, s: string)
  {
    s == "ca-certificates" || exists i :: 0 <= i < |debs| && DebSpec(debs[i]) == s
  }

  /** The spec of a versioned entry splits back into the name and the version. */
  lemma DebSpecRoundTrip(e: DebEntry)
    requires Helpers.IsField(e.package) && '=' !in e.package
    requires e.version.Some? ==> Helpers.IsField(e.version.value) && '=' !in e.version.value
    ensures e.version.Some? ==> SplitChar(DebSpec(e), '=') == [e.package, e.version.value]
    ensures e.version.None? ==> SplitChar(DebSpec(e), '=') == [e.package]
  {
    if e.version.Some? {
      var v := e.version.value;
      var s := DebSpec(e);
      StripKeepsEnds(e.package);
      StripKeepsEnds(v);
      assert s == e.package + "=" + v;
      var k := |e.package|;
      assert s[k] == '=' && s[..k] == e.package && s[k + 1..] == v;
      SplitCharAt(s, '=', k);
      SplitCharNone(v, '=');
    } else {
      SplitCharNone(e.package, '=');
    }
  }

  /** The packer: the constructor's settings, the `DEBS` list, the paths of the default manifests and the
      file system it works on. */
  class PackagePacker {
    const cfg: Config
    var debs: Debs
    var baseManifest: Option<string>
    var qcomManifest: Option<string>
    var disk: Disk

    /** Lines 55-75 (the checks of lines 47-53 and the image settings are not modelled). */
    constructor (cfg: Config, disk: Disk)
      ensures this.cfg == cfg && this.disk == disk
      ensures debs == Some([]) && baseManifest == None && qcomManifest == None
    {
      this.cfg := cfg;
      this.disk := disk;
      debs := Some([]);
      baseManifest := None;
      qcomManifest := None;
    }

    /** `parse_debs_manifest(path)` on the current disk. */
    method Read(path: string) returns (r: Result<Debs>)
      ensures r == ReadManifest(disk, path)
    {
      var key := StripDirMarks(path);
      var isFile := key in disk.files;
      var contents := if isFile then disk.files[key] else [];
      r := ParseDebsManifest(path, isFile, key == path && isFile, contents);
    }

    /** Lines 127-134 for one directory. */
    method ReadDir(root: string, files: seq<string>, imageType: string) returns (text: string)
      ensures text == Concat(DirPieces(disk, root, files, imageType))
    {
      text := [];
      for j := 0 to |files|
        invariant text == Concat(DirPieces(disk, root, files[..j], imageType))
      {
        ghost var before := DirPieces(disk, root, files[..j], imageType);
        DirPiecesNext(disk, root, files, imageType, j);
        var file := files[j];
        if file == imageType + ".manifest" {
          var filePath := PathJoin(root, file);
          if filePath in disk.files && disk.files[filePath] != [] {
            assert Copied(disk, root, file, imageType);
            ConcatSnoc(before, disk.files[filePath]);
            text := text + disk.files[filePath];
          } else {
            assert !Copied(disk, root, file, imageType);
            assert before + [] == before;
          }
        } else {
          assert before + [] == before;
        }
      }
      assert files[..|files|] == files;
    }

    /** Lines 124-134: the texts of the walk, concatenated. */
    method ReadWalk(folder: string, imageType: string, filter: string, walk: seq<WalkDir>) returns (text: string)
      ensures text == Concat(Pieces(disk, folder, imageType, filter, walk))
    {
      text := [];
      for i := 0 to |walk|
        invariant text == Concat(Pieces(disk, folder, imageType, filter, walk[..i]))
      {
        ghost var before := Pieces(disk, folder, imageType, filter, walk[..i]);
        PiecesNext(disk, folder, imageType, filter, walk, i);
        var dir := walk[i];
        if filter != [] && !Contains(dir.rel, filter) {
          assert before + [] == before;
          continue;
        }
        var found := ReadDir(WalkRoot(folder, dir.rel), dir.files, imageType);
        ConcatAppend(before, DirPieces(disk, WalkRoot(folder, dir.rel), dir.files, imageType));
        text := text + found;
      }
      assert walk[..|walk|] == walk;
    }

    /** Lines 112-141: the merged manifest is written whole once the walk is done. */
    method MergeManifestsFromFolder(folder: string, imageType: string, filter: string, walk: seq<WalkDir>,
                                    writable: bool) returns (merged: Option<string>)
      modifies this
      ensures (merged, disk) == Merge(old(disk), cfg.tempDir, folder, imageType, filter, walk, writable)
      ensures debs == old(debs) && baseManifest == old(baseManifest) && qcomManifest == old(qcomManifest)
    {
      if folder !in disk.dirs {
        return None;
      }
      var mergedPath := PathJoin(cfg.tempDir, imageType + ".manifest");
      if !writable {
        return None;
      }
      var text := ReadWalk(folder, imageType, filter, walk);
      disk := disk.(files := disk.files[mergedPath := text]);
      return Some(mergedPath);
    }

    /** Lines 157-172. */
    method LoadDefaults(base: string, qcom: string) returns (r: Result<()>)
      modifies this
      ensures disk == old(disk)
      ensures baseManifest == Some(base)
      ensures var d := DefaultsFrom(disk, old(debs), base, qcom, cfg.variant == "qcom");
              (r.Ok? <==> d.Ok?) && (r.Ok? ==> debs == d.value) && (r.Err? ==> r.error == d.error)
      ensures r.Ok? ==> qcomManifest == if cfg.variant == "qcom" then Some(qcom) else old(qcomManifest)
    {
      baseManifest := Some(base);
      ghost var fromBase := if Exists(disk, base) then ReadManifest(disk, base) else Ok(debs);
      if Exists(disk, base) {
        var loaded := Read(base);
        if loaded.Err? {
          return Err(loaded.error);
        }
        debs := loaded.value;
      }
      assert fromBase == Ok(debs);
      if cfg.variant == "qcom" {
        qcomManifest := Some(qcom);
        if Exists(disk, qcom) {
          if debs.None? {
            return Err(AttributeError);
          }
          var loaded := Read(qcom);
          if loaded.Err? {
            return Err(loaded.error);
          }
          if loaded.value.None? {
            return Err(TypeError);
          }
          debs := Some(debs.value + loaded.value.value);
        }
      }
      return Ok(());
    }

    /** The default manifest of a kind (lines 157 and 168). */
    method DefaultPath(kind: string) returns (path: string)
      ensures path == DefaultManifest(cfg, kind)
    {
      path := PathJoin(PathJoin(PathJoin(cfg.scriptDir, "packages"), kind), cfg.imageType + ".manifest");
    }

    /** Lines 175-188. */
    method LoadFolder(walk: seq<WalkDir>, writable: bool) returns (r: Result<()>)
      modifies this
      ensures var res := FromFolder(cfg, old(disk), old(debs), walk, writable);
              disk == res.1 && (r.Ok? <==> res.0.Ok?) && (r.Ok? ==> res.0.value == debs) &&
              (r.Err? ==> r.error == res.0.error)
      ensures baseManifest == old(baseManifest) && qcomManifest == old(qcomManifest)
    {
      ghost var before := disk;
      ghost var start := debs;
      r := LoadMerged("base", walk, writable);
      ghost var afterFirst := disk;
      MergedReadable(before, cfg.tempDir, cfg.qcFolder, cfg.imageType, "base", walk, writable);
      ghost var first := Merge(before, cfg.tempDir, cfg.qcFolder, cfg.imageType, "base", walk, writable);
      ghost var withBase := if first.0.Some? then Extend(start, ReadManifest(first.1, first.0.value)) else Ok(start);
      if r.Err? {
        assert withBase == Err(AttributeError);
        return;
      }
      assert withBase == Ok(debs);
      if cfg.variant == "qcom" {
        ghost var mid := debs;
        r := LoadMerged("qcom", walk, writable);
        MergedReadable(afterFirst, cfg.tempDir, cfg.qcFolder, cfg.imageType, "qcom", walk, writable);
        ghost var second := Merge(afterFirst, cfg.tempDir, cfg.qcFolder, cfg.imageType, "qcom", walk, writable);
        ghost var res := if second.0.Some? then Extend(mid, ReadManifest(second.1, second.0.value)) else Ok(mid);
        assert r.Ok? && res == Ok(debs);
      }
    }

    /** Lines 176-178 (or 181-183): merge the folder's manifests under `filter` and append what the
        merged file holds; a `DEBS` of `None` has no `extend`. */
    method LoadMerged(filter: string, walk: seq<WalkDir>, writable: bool) returns (r: Result<()>)
      modifies this
      ensures var m := Merge(old(disk), cfg.tempDir, cfg.qcFolder, cfg.imageType, filter, walk, writable);
              var read := Entries(ReadLines(Concat(Pieces(old(disk), cfg.qcFolder, cfg.imageType, filter, walk))));
              && disk == m.1
              && (r.Err? <==> m.0.Some? && old(debs).None?)
              && (r.Err? ==> r.error == AttributeError && debs == old(debs))
              && (r.Ok? ==> debs == if m.0.Some? then Some(old(debs).value + read) else old(debs))
      ensures baseManifest == old(baseManifest) && qcomManifest == old(qcomManifest)
    {
      ghost var before := disk;
      var merged := MergeManifestsFromFolder(cfg.qcFolder, cfg.imageType, filter, walk, writable);
      MergedReadable(before, cfg.tempDir, cfg.qcFolder, cfg.imageType, filter, walk, writable);
      if merged.Some? {
        if debs.None? {
          return Err(AttributeError);
        }
        var loaded := Read(merged.value);
        debs := Some(debs.value + loaded.value.value);
      }
      return Ok(());
    }

    /** Lines 145-192, as written (`fixed` false) or with the exit only when no manifest was found. The
        QCOM manifest field is cleared first; a given manifest path leaves the base manifest field as it
        was, and otherwise the base field names the default base manifest and, once the defaults are
        read, the QCOM field names the default QCOM manifest for the `qcom` variant. */
    method ParseManifests(walk: seq<WalkDir>, writable: bool, fixed: bool) returns (r: Result<()>)
      modifies this
      ensures var res := Manifests(cfg, old(disk), old(debs), walk, writable, fixed);
              disk == res.1 && (r.Ok? <==> res.0.Ok?) && (r.Ok? ==> debs == res.0.value) &&
              (r.Err? ==> r.error == res.0.error)
      ensures cfg.manifestPath != [] ==> baseManifest == old(baseManifest) && qcomManifest == None
      ensures cfg.manifestPath == [] ==> baseManifest == Some(DefaultManifest(cfg, "base"))
      ensures cfg.manifestPath == [] && r.Ok? ==>
              qcomManifest == if cfg.variant == "qcom" then Some(DefaultManifest(cfg, "qcom")) else None
    {
      qcomManifest := None;
      if cfg.manifestPath != [] {
        var loaded := Read(cfg.manifestPath);
        if loaded.Err? {
          return Err(loaded.error);
        }
        debs := loaded.value;
        return Ok(());
      }
      var base := DefaultPath("base");
      var qcom := DefaultPath("qcom");
      var defaults := LoadDefaults(base, qcom);
      if defaults.Err? {
        return defaults;
      }
      if cfg.qcFolder != [] {
        r := LoadFolder(walk, writable);
        return;
      }
      if fixed && FoundDefault(cfg, disk) {
        return Ok(());
      }
      return Err(Exit(1));
    }

    /** Lines 194-208: the comma-joined package list; iterating a `DEBS` of `None` raises `TypeError`.
        `list(set(...))` drops duplicates in an order the language does not specify, so the result is
        stated for some duplicate-free order. */
    method GetDebList() returns (r: Result<string>)
      ensures r.Err? <==> debs.None?
      ensures r.Err? ==> r.error == TypeError
      ensures r.Ok? ==> exists names :: NoDups(names) && (forall s :: s in names <==> InDebList(debs.value, s)) &&
                                         r.value == Join(names, ",")
    {
      if debs.None? {
        return Err(TypeError);
      }
      var entries := debs.value;
      var specs := ["ca-certificates"] + MapSeq(entries, DebSpec);
      var names := Dedup(specs);
      forall s ensures s in names <==> InDebList(entries, s) {
        if s in specs && s != "ca-certificates" {
          var k :| 0 <= k < |specs| && specs[k] == s;
          MapSeqAt(entries, DebSpec, k - 1);
        }
        if InDebList(entries, s) && s != "ca-certificates" {
          var i :| 0 <= i < |entries| && DebSpec(entries[i]) == s;
          MapSeqAt(entries, DebSpec, i);
          assert specs[i + 1] == s;
        }
      }
      return Ok(Join(names, ","));
    }
  }
}
