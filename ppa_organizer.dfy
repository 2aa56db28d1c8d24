/** `reorganize` of `scripts/ppa_organizer.py`: the `.dsc`, `.deb`, `-dev` `.deb` and `-dbgsym` `.ddeb`
    files of a build directory go into one pool directory per canonical package name. The directory
    listing is a parameter; the directories created and the files copied are recorded, in order, as the
    effects of a run. */
module PpaOrganizer {

  import opened Wrappers
  import opened Collections
  import opened Text

  predicate IsDsc(f: string) { EndsWith(f, ".dsc") }
  predicate IsDeb(f: string) { EndsWith(f, ".deb") && !Contains(f, "-dev") }
  predicate IsDev(f: string) { EndsWith(f, ".deb") && Contains(f, "-dev") }
  predicate IsDbg(f: string) { EndsWith(f, ".ddeb") && Contains(f, "-dbgsym") }

  /** No file belongs to two of the four kinds: the endings `.dsc`, `.deb` and `.ddeb` differ in their last
      or fourth-last character, and `-dev` decides between a plain and a development `.deb`. */
  lemma KindsExclusive(f: string)
    ensures IsDsc(f) ==> !IsDeb(f) && !IsDev(f) && !IsDbg(f)
    ensures IsDeb(f) ==> !IsDev(f) && !IsDbg(f)
    ensures IsDev(f) ==> !IsDbg(f)
  {
    var n := |f|;
    if EndsWith(f, ".dsc") {
      assert f[n - 1] == ".dsc"[3];
    }
    if EndsWith(f, ".deb") {
      assert f[n - 1] == ".deb"[3] && f[n - 4] == ".deb"[0];
    }
    if EndsWith(f, ".ddeb") {
      assert f[n - 1] == ".ddeb"[4] && f[n - 4] == ".ddeb"[1];
    }
  }

  /** The four lists of lines 85-88. */
  datatype Buckets = Buckets(dsc: seq<string>, deb: seq<string>, dev: seq<string>, dbg: seq<string>)

  /** Every file of the four lists, kind by kind. */
  function AllFiles(b: Buckets): seq<string>
  {
    b.dsc + b.deb + b.dev + b.dbg
  }

  function Bucket(files: seq<string>): (b: Buckets)
    ensures forall f :: f in b.dsc <==> f in files && IsDsc(f)
    ensures forall f :: f in b.deb <==> f in files && IsDeb(f)
    ensures forall f :: f in b.dev <==> f in files && IsDev(f)
    ensures forall f :: f in b.dbg <==> f in files && IsDbg(f)
  {
    Buckets(Filter(files, IsDsc), Filter(files, IsDeb), Filter(files, IsDev), Filter(files, IsDbg))
  }

  /** The files of a listing without duplicates land in the four lists at most once in all. */
  lemma BucketsNoDups(files: seq<string>)
    requires NoDups(files)
    ensures NoDups(AllFiles(Bucket(files)))
  {
    var b := Bucket(files);
    FilterNoDups(files, IsDsc);
    FilterNoDups(files, IsDeb);
    FilterNoDups(files, IsDev);
    FilterNoDups(files, IsDbg);
    forall f ensures (f in b.dsc ==> !IsDeb(f) && !IsDev(f) && !IsDbg(f)) && (f in b.deb ==> !IsDev(f) && !IsDbg(f))
      && (f in b.dev ==> !IsDbg(f))
    {
      KindsExclusive(f);
    }
    NoDupsAppend(b.dsc, b.deb);
    assert forall f :: f in b.dsc + b.deb ==> f !in b.dev;
    NoDupsAppend(b.dsc + b.deb, b.dev);
    assert forall f :: f in b.dsc + b.deb + b.dev ==> f !in b.dbg;
    NoDupsAppend(b.dsc + b.deb + b.dev, b.dbg);
  }

  // ---------------------------------------------------------------------------------------------
  // Canonical package names (lines 92-111)
  // ---------------------------------------------------------------------------------------------

  /** Lines 92-103 for one file: the text before the first `_`, without `suffix`, without one trailing
      digit. `f[-1]` raises `IndexError` when nothing is left. */
  function Canonical(f: string, suffix: string): (r: Result<string>)
    ensures r.Err? <==> RemoveSuffix(Stem(f), suffix) == []
    ensures r.Err? ==> r.error == IndexError
  {
    var base := RemoveSuffix(Stem(f), suffix);
    if base == [] then Err(IndexError) else Ok(DropTrailingDigit(base))
  }

  /** A canonical name is a prefix of its file name without `_`, and is the de-suffixed stem less at most
      one trailing digit, which is dropped exactly when there is one. */
  lemma CanonicalPrefix(f: string, suffix: string)
    requires Canonical(f, suffix).Ok?
    ensures var c := Canonical(f, suffix).value;
      StartsWith(f, c) && '_' !in c
    ensures var c := Canonical(f, suffix).value; var base := RemoveSuffix(Stem(f), suffix);
      StartsWith(base, c) && (|c| < |base| <==> IsDigit(base[|base| - 1])) && |base| <= |c| + 1
  {
    var stem := Stem(f);
    var base := RemoveSuffix(stem, suffix);
    var c := DropTrailingDigit(base);
    assert base == stem[..|base|];
    assert c == stem[..|c|] && c == f[..|c|];
    assert forall i :: 0 <= i < |c| ==> c[i] == stem[i];
  }

  /** A list comprehension over `Canonical`: the names in file order, or the `IndexError` of any file. */
  function CanonicalAll(files: seq<string>, suffix: string): Result<seq<string>>
  {
    if exists i :: 0 <= i < |files| && Canonical(files[i], suffix).Err? then Err(IndexError)
    else Ok(seq(|files|, i requires 0 <= i < |files| => Canonical(files[i], suffix).value))
  }

  /** The comprehension succeeds exactly when every file leaves a name. */
  lemma ListNamed(files: seq<string>, suffix: string)
    ensures CanonicalAll(files, suffix).Ok? <==> forall f :: f in files ==> Canonical(f, suffix).Ok?
  {
    if CanonicalAll(files, suffix).Err? {
      var i :| 0 <= i < |files| && Canonical(files[i], suffix).Err?;
      assert files[i] in files;
    }
  }

  /** The names of a list are the canonical names of its files. */
  lemma NamesOfList(files: seq<string>, suffix: string, x: string)
    requires CanonicalAll(files, suffix).Ok?
    ensures x in CanonicalAll(files, suffix).value <==> exists f :: f in files && Canonical(f, suffix) == Ok(x)
  {
    if x in CanonicalAll(files, suffix).value {
      NameHasFile(files, suffix, x);
    }
    if exists f :: f in files && Canonical(f, suffix) == Ok(x) {
      var f :| f in files && Canonical(f, suffix) == Ok(x);
      FileHasName(files, suffix, f);
    }
  }

  lemma NameHasFile(files: seq<string>, suffix: string, x: string)
    requires CanonicalAll(files, suffix).Ok? && x in CanonicalAll(files, suffix).value
    ensures exists f :: f in files && Canonical(f, suffix) == Ok(x)
  {
    var names := CanonicalAll(files, suffix).value;
    var i :| 0 <= i < |names| && names[i] == x;
    assert Canonical(files[i], suffix).Ok?;
    assert files[i] in files;
  }

  lemma FileHasName(files: seq<string>, suffix: string, f: string)
    requires CanonicalAll(files, suffix).Ok? && f in files
    ensures Canonical(f, suffix).Ok? && Canonical(f, suffix).value in CanonicalAll(files, suffix).value
  {
    var names := CanonicalAll(files, suffix).value;
    var i :| 0 <= i < |files| && files[i] == f;
    assert Canonical(files[i], suffix).Ok?;
    assert names[i] == Canonical(f, suffix).value;
  }

  /** Lines 92-105: the names of the four lists, united without duplicates. Python's `set` has no order;
      the model keeps first occurrences. */
  function PackageNames(b: Buckets): (r: Result<seq<string>>)
    ensures r.Err? ==> r.error == IndexError
    ensures r.Ok? ==> NoDups(r.value)
  {
    var a :- CanonicalAll(b.dsc, "");
    var d :- CanonicalAll(b.deb, "");
    var v :- CanonicalAll(b.dev, "-dev");
    var g :- CanonicalAll(b.dbg, "-dbgsym");
    Ok(Dedup(a + d + v + g))
  }

  /** The names can be formed exactly when every file of every list leaves a name; `-dev` and `-dbgsym`
      come off development and debug packages first. */
  lemma PackageNamesOk(b: Buckets)
    ensures PackageNames(b).Ok? <==>
      (forall f :: f in b.dsc ==> Canonical(f, "").Ok?) && (forall f :: f in b.deb ==> Canonical(f, "").Ok?) &&
      (forall f :: f in b.dev ==> Canonical(f, "-dev").Ok?) && (forall f :: f in b.dbg ==> Canonical(f, "-dbgsym").Ok?)
  {
    ListNamed(b.dsc, "");
    ListNamed(b.deb, "");
    ListNamed(b.dev, "-dev");
    ListNamed(b.dbg, "-dbgsym");
  }

  /** The package names are exactly the canonical names of the files of the four lists. */
  lemma PackageNamesMembers(b: Buckets, x: string)
    requires PackageNames(b).Ok?
    ensures x in PackageNames(b).value <==>
      (exists f :: f in b.dsc && Canonical(f, "") == Ok(x)) || (exists f :: f in b.deb && Canonical(f, "") == Ok(x)) ||
      (exists f :: f in b.dev && Canonical(f, "-dev") == Ok(x)) || (exists f :: f in b.dbg && Canonical(f, "-dbgsym") == Ok(x))
  {
    NamesOfList(b.dsc, "", x);
    NamesOfList(b.deb, "", x);
    NamesOfList(b.dev, "-dev", x);
    NamesOfList(b.dbg, "-dbgsym", x);
  }

  /** The canonical name of every `.dsc` file is one of the package names. */
  lemma DscNameListed(b: Buckets, k: nat)
    requires PackageNames(b).Ok? && k < |b.dsc|
    ensures Canonical(b.dsc[k], "").Ok? && Canonical(b.dsc[k], "").value in PackageNames(b).value
  {
    PackageNamesOk(b);
    assert b.dsc[k] in b.dsc;
    PackageNamesMembers(b, Canonical(b.dsc[k], "").value);
  }

  predicate LongestFirst(s: seq<string>)
  {
    forall i, j :: 0 <= i < j < |s| ==> |s[i]| >= |s[j]|
  }

  /** Inserting `x` after every element at least as long as it. */
  function InsertByLength(t: seq<string>, x: string): (r: seq<string>)
    ensures multiset(r) == multiset(t) + multiset{x}
    ensures forall i :: 0 <= i < |r| ==> r[i] == x || r[i] in t
  {
    if t == [] || |t[0]| < |x| then [x] + t
    else
      assert t == [t[0]] + t[1..];
      [t[0]] + InsertByLength(t[1..], x)
  }

  lemma {:induction false} InsertKeepsLongestFirst(t: seq<string>, x: string)
    requires LongestFirst(t)
    ensures LongestFirst(InsertByLength(t, x))
    ensures InsertByLength(t, x) != [] && |InsertByLength(t, x)[0]| >= (if t == [] then |x| else Min(|t[0]|, |x|))
  {
    if t != [] && |t[0]| >= |x| {
      InsertKeepsLongestFirst(t[1..], x);
      var r := InsertByLength(t[1..], x);
      forall j | 0 <= j < |r| ensures |t[0]| >= |r[j]| {
        if r[j] != x {
          var k :| 0 <= k < |t[1..]| && t[1..][k] == r[j];
          assert t[k + 1] == r[j];
        }
      }
      assert InsertByLength(t, x) == [t[0]] + r;
    }
  }

  function Min(a: int, b: int): int { if a < b then a else b }

  /** Line 111, `package_names.sort(reverse=True, key=lambda x: len(x))`: a stable sort, longest first. */
  function SortLongestFirst(s: seq<string>): (r: seq<string>)
    ensures multiset(r) == multiset(s) && LongestFirst(r)
  {
    if s == [] then []
    else
      var t := SortLongestFirst(s[..|s| - 1]);
      InsertKeepsLongestFirst(t, s[|s| - 1]);
      SnocMultiset(s);
      InsertByLength(t, s[|s| - 1])
  }

  // ---------------------------------------------------------------------------------------------
  // The loop of lines 113-155
  // ---------------------------------------------------------------------------------------------

  /** A copy of `file` into the pool directory of `package`. */
  datatype Copy = Copy(package: string, file: string)

  /** What the loop has done so far: the four lists as shrunk, the copies made and the directories made. */
  datatype Progress = Progress(left: Buckets, copies: seq<Copy>, dirs: seq<string>)

  /** Lines 123-126, `next((file for file in files if name in file), None)`: the first file containing the
      package name (`ClaimFirst` states which). */
  function Claim(files: seq<string>, name: string): (r: Option<string>)
    ensures r.Some? ==> r.value in files
  {
    FirstWhere(files, f => Contains(f, name))
  }

  /** `Claim` finds nothing exactly when no file contains the name, and otherwise the first file that does. */
  lemma ClaimFirst(files: seq<string>, name: string)
    ensures Claim(files, name).None? <==> forall f :: f in files ==> !Contains(f, name)
    ensures Claim(files, name).Some? ==> exists i :: 0 <= i < |files| && files[i] == Claim(files, name).value &&
                                          Contains(files[i], name) && forall j :: 0 <= j < i ==> !Contains(files[j], name)
  {
    var p := (f: string) => Contains(f, name);
    assert Claim(files, name) == FirstWhere(files, p);
    if Claim(files, name).None? {
      forall f | f in files ensures !Contains(f, name) {
        var i :| 0 <= i < |files| && files[i] == f;
        assert !p(files[i]);
      }
    }
  }

  function CopyOf(name: string, file: Option<string>): seq<Copy>
  {
    if file.None? then [] else [Copy(name, file.value)]
  }

  /** `files.remove(file)` for a file just claimed from `files`. */
  function Without(files: seq<string>, file: Option<string>): (r: seq<string>)
    requires file.Some? ==> file.value in files
    ensures file.Some? ==> multiset(r) == multiset(files) - multiset{file.value}
    ensures file.None? ==> r == files
  {
    if file.None? then files else RemoveFirst(files, file.value).value
  }

  const NotInList := ValueError("list.remove(x): x not in list")

  /** Lines 133-155 for one list: copy the claimed file, if any, and remove it from the list. */
  function Take(files: seq<string>, copies: seq<Copy>, name: string): (seq<string>, seq<Copy>)
  {
    var f := Claim(files, name);
    (Without(files, f), copies + CopyOf(name, f))
  }

  /** One pass of the loop body for `name`. `fixed` chooses what line 131 removes from the `.dsc` list:
      as written the claimed `.deb` (or `None`), which is never there, so `list.remove` raises after the
      `.dsc` was copied; fixed, the claimed `.dsc` itself. */
  function Place(p: Progress, name: string, fixed: bool): (Result<()>, Progress)
  {
    var dirs := p.dirs + [name];
    var dsc := Claim(p.left.dsc, name);
    var c1 := p.copies + CopyOf(name, dsc);
    var target := if fixed then dsc else Claim(p.left.deb, name);
    var dscLeft := if dsc.None? then Some(p.left.dsc) else if target.None? then None else RemoveFirst(p.left.dsc, target.value);
    if dscLeft.None? then (Err(NotInList), Progress(p.left, c1, dirs))
    else
      var deb := Take(p.left.deb, c1, name);
      var dev := Take(p.left.dev, deb.1, name);
      var dbg := Take(p.left.dbg, dev.1, name);
      (Ok(()), Progress(Buckets(dscLeft.value, deb.0, dev.0, dbg.0), dbg.1, dirs))
  }

  function PlaceStep(prev: (Result<()>, Progress), name: string, fixed: bool): (Result<()>, Progress)
  {
    if prev.0.Err? then prev else Place(prev.1, name, fixed)
  }

  /** The loop over `names`, stopping at the first exception. */
  function PlaceAll(start: Progress, names: seq<string>, fixed: bool): (Result<()>, Progress)
  {
    if names == [] then (Ok(()), start)
    else PlaceStep(PlaceAll(start, names[..|names| - 1], fixed), names[|names| - 1], fixed)
  }

  lemma PlaceAllNext(start: Progress, names: seq<string>, i: nat, fixed: bool)
    requires i < |names|
    ensures PlaceAll(start, names[..i + 1], fixed) == PlaceStep(PlaceAll(start, names[..i], fixed), names[i], fixed)
  {
    PrefixOfPrefix(names, i);
  }

  /** One more pass of the loop: its outcome extends the run, and an exception ends it. */
  lemma PlaceAllStep(start: Progress, names: seq<string>, i: nat, fixed: bool, p: Progress, res: Result<()>, q: Progress)
    requires i < |names| && PlaceAll(start, names[..i], fixed) == (Ok(()), p) && (res, q) == Place(p, names[i], fixed)
    ensures PlaceAll(start, names[..i + 1], fixed) == (res, q)
    ensures res.Err? ==> PlaceAll(start, names, fixed) == (res, q)
  {
    PlaceAllNext(start, names, i, fixed);
    if res.Err? {
      PlaceErrorSticks(start, names, i + 1, fixed);
    }
  }

  lemma {:induction false} PlaceErrorSticks(start: Progress, names: seq<string>, k: nat, fixed: bool)
    requires k <= |names| && PlaceAll(start, names[..k], fixed).0.Err?
    ensures PlaceAll(start, names, fixed) == PlaceAll(start, names[..k], fixed)
  {
    if k < |names| {
      PrefixOfPrefix(names, |names| - 1);
      assert names[..|names| - 1][..k] == names[..k];
      PlaceErrorSticks(start, names[..|names| - 1], k, fixed);
    } else {
      assert names[..k] == names;
    }
  }

  /** `reorganize(build_dir, output_dir)` on the listing `files`: its outcome, the copies and the
      directories, in the order made. */
  function ReorganizeSpec(files: seq<string>, fixed: bool): (Result<()>, seq<Copy>, seq<string>)
  {
    var b := Bucket(files);
    var ns := PackageNames(b);
    if ns.Err? then (Err(ns.error), [], [])
    else
      var p := PlaceAll(Progress(b, [], []), SortLongestFirst(ns.value), fixed);
      (p.0, p.1.copies, p.1.dirs)
  }

  /** Lines 133-155 for one list: `if file: shutil.copy(...); files.remove(file)`. */
  method CopyAndRemove(files: seq<string>, copies: seq<Copy>, name: string, file: Option<string>)
    returns (rest: seq<string>, copied: seq<Copy>)
    requires file == Claim(files, name)
    ensures rest == Take(files, copies, name).0 && copied == Take(files, copies, name).1
  {
    rest, copied := files, copies;
    if file.Some? {
      copied := copied + [Copy(name, file.value)];
      rest := RemoveFirst(rest, file.value).value;
    }
  }

  /** Lines 113-155 for one name: make its directory, then copy and remove what each list offers. */
  method PlaceName(p: Progress, name: string, fixed: bool) returns (r: Result<()>, q: Progress)
    ensures (r, q) == Place(p, name, fixed)
  {
    var dscFiles, debFiles, devFiles, dbgFiles := p.left.dsc, p.left.deb, p.left.dev, p.left.dbg;
    var copies, dirs := p.copies, p.dirs + [name];
    var dsc := Claim(dscFiles, name);
    var deb := Claim(debFiles, name);
    var dev := Claim(devFiles, name);
    var dbg := Claim(dbgFiles, name);
    if dsc.Some? {
      copies := copies + [Copy(name, dsc.value)];
      var target := if fixed then dsc else deb;
      var rest := if target.None? then None else RemoveFirst(dscFiles, target.value);
      if rest.None? {
        return Err(NotInList), Progress(p.left, copies, dirs);
      }
      dscFiles := rest.value;
    }
    assert copies == p.copies + CopyOf(name, dsc);
    debFiles, copies := CopyAndRemove(debFiles, copies, name, deb);
    devFiles, copies := CopyAndRemove(devFiles, copies, name, dev);
    dbgFiles, copies := CopyAndRemove(dbgFiles, copies, name, dbg);
    return Ok(()), Progress(Buckets(dscFiles, debFiles, devFiles, dbgFiles), copies, dirs);
  }

  /** The `for` loop of lines 113-155 over `names`, until the first exception. */
  method PlaceNames(start: Progress, names: seq<string>, fixed: bool) returns (r: Result<()>, p: Progress)
    ensures (r, p) == PlaceAll(start, names, fixed)
  {
    p := start;
    var i := 0;
    while i < |names|
      invariant 0 <= i <= |names|
      invariant PlaceAll(start, names[..i], fixed) == (Ok(()), p)
    {
      ghost var before := p;
      var res;
      res, p := PlaceName(p, names[i], fixed);
      PlaceAllStep(start, names, i, fixed, before, res, p);
      if res.Err? {
        return res, p;
      }
      i := i + 1;
    }
    assert names[..i] == names;
    return Ok(()), p;
  }

  /** `reorganize`: buckets, names, the longest-first order, then one pass per name. */
  method Reorganize(files: seq<string>, fixed: bool) returns (r: Result<()>, copies: seq<Copy>, dirs: seq<string>)
    ensures (r, copies, dirs) == ReorganizeSpec(files, fixed)
  {
    var b := Bucket(files);
    var found := PackageNames(b);
    if found.Err? {
      return Err(found.error), [], [];
    }
    var names := SortLongestFirst(found.value);
    var p;
    r, p := PlaceNames(Progress(b, [], []), names, fixed);
    return r, p.copies, p.dirs;
  }

  // ---------------------------------------------------------------------------------------------
  // Properties
  // ---------------------------------------------------------------------------------------------

  /** The files named by a list of copies, in order. */
  function Copied(cs: seq<Copy>): (fs: seq<string>)
    ensures |fs| == |cs| && forall i :: 0 <= i < |cs| ==> fs[i] == cs[i].file
  {
    seq(|cs|, i requires 0 <= i < |cs| => cs[i].file)
  }

  lemma CopiedAppend(a: seq<Copy>, b: seq<Copy>)
    ensures Copied(a + b) == Copied(a) + Copied(b)
  {
  }

  /** Every copy goes to a directory already made, named by a package the file contains. */
  predicate Labelled(cs: seq<Copy>, dirs: seq<string>)
  {
    forall c :: c in cs ==> Contains(c.file, c.package) && c.package in dirs
  }

  /** The files still listed and the files copied, together. */
  function Pool(p: Progress): multiset<string>
  {
    multiset(AllFiles(p.left)) + multiset(Copied(p.copies))
  }

  /** Four moves in a row, each from its own list to one list of copies, add up. */
  lemma MovesAdd(a0: multiset<string>, a1: multiset<string>, a2: multiset<string>, a3: multiset<string>,
                 b0: multiset<string>, b1: multiset<string>, b2: multiset<string>, b3: multiset<string>,
                 c0: multiset<string>, c1: multiset<string>, c2: multiset<string>, c3: multiset<string>, c4: multiset<string>)
    requires a0 + c1 == b0 + c0 && a1 + c2 == b1 + c1 && a2 + c3 == b2 + c2 && a3 + c4 == b3 + c3
    ensures a0 + a1 + a2 + a3 + c4 == b0 + b1 + b2 + b3 + c0
  {
    forall x ensures (a0 + a1 + a2 + a3 + c4)[x] == (b0 + b1 + b2 + b3 + c0)[x] {
      assert (a0 + c1)[x] == (b0 + c0)[x] && (a1 + c2)[x] == (b1 + c1)[x];
      assert (a2 + c3)[x] == (b2 + c2)[x] && (a3 + c4)[x] == (b3 + c3)[x];
    }
  }

  lemma MultisetOfAll(b: Buckets)
    ensures multiset(AllFiles(b)) == multiset(b.dsc) + multiset(b.deb) + multiset(b.dev) + multiset(b.dbg)
  {
  }

  /** Taking from one list moves the claimed file, if any, from the list to the copies. */
  lemma TakeMoves(files: seq<string>, copies: seq<Copy>, name: string)
    ensures multiset(Take(files, copies, name).0) + multiset(Copied(Take(files, copies, name).1))
         == multiset(files) + multiset(Copied(copies))
  {
    var f := Claim(files, name);
    CopiedAppend(copies, CopyOf(name, f));
    if f.Some? {
      assert Copied(CopyOf(name, f)) == [f.value];
    } else {
      assert Copied(CopyOf(name, f)) == [];
    }
  }

  /** The copy taken from one list goes to the directory of `name`, and the file contains the name. */
  lemma TakeLabels(files: seq<string>, copies: seq<Copy>, name: string, dirs: seq<string>)
    requires Labelled(copies, dirs) && name in dirs
    ensures Labelled(Take(files, copies, name).1, dirs)
  {
    ClaimFirst(files, name);
  }

  /** With the fix, the loop body takes from each of the four lists in turn and never raises. */
  lemma FixedPlaceTakes(p: Progress, name: string)
    ensures var t1 := Take(p.left.dsc, p.copies, name);
            var t2 := Take(p.left.deb, t1.1, name);
            var t3 := Take(p.left.dev, t2.1, name);
            var t4 := Take(p.left.dbg, t3.1, name);
            Place(p, name, true) == (Ok(()), Progress(Buckets(t1.0, t2.0, t3.0, t4.0), t4.1, p.dirs + [name]))
  {
  }

  /** The fixed loop body never raises, makes the directory of `name`, and moves files: every file it
      copies leaves the lists, and every copy is labelled by the name. */
  lemma FixedPlace(p: Progress, name: string)
    ensures Place(p, name, true).0.Ok?
    ensures Place(p, name, true).1.dirs == p.dirs + [name]
    ensures Pool(Place(p, name, true).1) == Pool(p)
    ensures Labelled(p.copies, p.dirs) ==> Labelled(Place(p, name, true).1.copies, p.dirs + [name])
  {
    var l, dirs := p.left, p.dirs + [name];
    var t1 := Take(l.dsc, p.copies, name);
    var t2 := Take(l.deb, t1.1, name);
    var t3 := Take(l.dev, t2.1, name);
    var t4 := Take(l.dbg, t3.1, name);
    FixedPlaceTakes(p, name);
    TakeMoves(l.dsc, p.copies, name);
    TakeMoves(l.deb, t1.1, name);
    TakeMoves(l.dev, t2.1, name);
    TakeMoves(l.dbg, t3.1, name);
    MultisetOfAll(Buckets(t1.0, t2.0, t3.0, t4.0));
    MultisetOfAll(l);
    MovesAdd(multiset(t1.0), multiset(t2.0), multiset(t3.0), multiset(t4.0),
             multiset(l.dsc), multiset(l.deb), multiset(l.dev), multiset(l.dbg),
             multiset(Copied(p.copies)), multiset(Copied(t1.1)), multiset(Copied(t2.1)), multiset(Copied(t3.1)),
             multiset(Copied(t4.1)));
    if Labelled(p.copies, p.dirs) {
      assert Labelled(p.copies, dirs);
      TakeLabels(l.dsc, p.copies, name, dirs);
      TakeLabels(l.deb, t1.1, name, dirs);
      TakeLabels(l.dev, t2.1, name, dirs);
      TakeLabels(l.dbg, t3.1, name, dirs);
    }
  }

  /** The fixed loop over any names: no exception, one directory per name, files moved and labelled. */
  lemma {:induction false} FixedPlaceAll(start: Progress, names: seq<string>)
    ensures PlaceAll(start, names, true).0.Ok?
    ensures PlaceAll(start, names, true).1.dirs == start.dirs + names
    ensures Pool(PlaceAll(start, names, true).1) == Pool(start)
    ensures Labelled(start.copies, start.dirs) ==> Labelled(PlaceAll(start, names, true).1.copies, start.dirs + names)
  {
    if names != [] {
      var init := names[..|names| - 1];
      FixedPlaceAll(start, init);
      var mid := PlaceAll(start, init, true);
      FixedPlace(mid.1, names[|names| - 1]);
      AppendLast(start.dirs, names);
    }
  }

  /** With the fix, `reorganize` raises only where the names cannot be formed, and otherwise makes one
      directory per name, longest first. */
  lemma FixedOutcome(files: seq<string>)
    ensures ReorganizeSpec(files, true).0.Ok? <==> PackageNames(Bucket(files)).Ok?
    ensures ReorganizeSpec(files, true).0.Ok? ==>
      ReorganizeSpec(files, true).2 == SortLongestFirst(PackageNames(Bucket(files)).value)
  {
    var b := Bucket(files);
    if PackageNames(b).Ok? {
      var names := SortLongestFirst(PackageNames(b).value);
      FixedPlaceAll(Progress(b, [], []), names);
      var fin := PlaceAll(Progress(b, [], []), names, true);
      assert ReorganizeSpec(files, true) == (fin.0, fin.1.copies, fin.1.dirs);
    }
  }

  /** With the fix, every copy goes to a directory made for a package name the copied file contains. */
  lemma FixedLabels(files: seq<string>)
    ensures forall c :: c in ReorganizeSpec(files, true).1 ==>
      Contains(c.file, c.package) && c.package in ReorganizeSpec(files, true).2
  {
    var b := Bucket(files);
    if PackageNames(b).Ok? {
      var names := SortLongestFirst(PackageNames(b).value);
      FixedPlaceAll(Progress(b, [], []), names);
      var fin := PlaceAll(Progress(b, [], []), names, true);
      assert ReorganizeSpec(files, true) == (fin.0, fin.1.copies, fin.1.dirs);
    }
  }

  /** With the fix, a listing without duplicates has each of its files copied at most once, and nothing
      else is copied. */
  lemma FixedCopiesOnce(files: seq<string>)
    requires NoDups(files)
    ensures NoDups(Copied(ReorganizeSpec(files, true).1))
    ensures forall c :: c in ReorganizeSpec(files, true).1 ==> c.file in files
  {
    var b := Bucket(files);
    if PackageNames(b).Ok? {
      var start := Progress(b, [], []);
      var names := SortLongestFirst(PackageNames(b).value);
      FixedPlaceAll(start, names);
      var copies := PlaceAll(start, names, true).1.copies;
      var m := Pool(PlaceAll(start, names, true).1);
      assert Copied([]) == [];
      assert m == multiset(AllFiles(b));
      BucketsNoDups(files);
      assert forall f :: f in AllFiles(b) ==> f in files;
      PoolBounds(AllFiles(b), m, files, copies);
    }
  }

  /** Files copied out of a pool of distinct files from `files` are distinct and from `files`. */
  lemma PoolBounds(all: seq<string>, m: multiset<string>, files: seq<string>, copies: seq<Copy>)
    requires NoDups(files) && (forall f :: f in all ==> f in files) && NoDups(all)
    requires m == multiset(all) && multiset(Copied(copies)) <= m
    ensures NoDups(Copied(copies)) && forall c :: c in copies ==> c.file in files
  {
    NoDupsCounts(all);
    forall x ensures multiset(Copied(copies))[x] <= 1 {
      assert multiset(Copied(copies))[x] <= m[x];
    }
    NoDupsCounts(Copied(copies));
    forall c | c in copies ensures c.file in files {
      var k :| 0 <= k < |copies| && copies[k] == c;
      assert Copied(copies)[k] == c.file;
      assert c.file in m;
    }
  }

  /** The loop body as written, over lists of `.dsc` and plain `.deb` files: it raises exactly when some
      `.dsc` file contains the name, and otherwise leaves the `.dsc` list alone. */
  lemma AsWrittenPlace(p: Progress, name: string)
    requires forall f :: f in p.left.dsc ==> IsDsc(f)
    requires forall f :: f in p.left.deb ==> IsDeb(f)
    ensures Place(p, name, false).0.Err? <==> Claim(p.left.dsc, name).Some?
    ensures Place(p, name, false).0.Err? ==> Place(p, name, false).0.error == NotInList
    ensures Place(p, name, false).0.Ok? ==>
      Place(p, name, false).1.left.dsc == p.left.dsc && forall f :: f in Place(p, name, false).1.left.deb ==> IsDeb(f)
  {
    var dsc, deb := Claim(p.left.dsc, name), Claim(p.left.deb, name);
    if dsc.Some? && deb.Some? {
      KindsExclusive(deb.value);
      assert deb.value !in p.left.dsc;
    }
    var rest := Without(p.left.deb, deb);
    forall f | f in rest ensures IsDeb(f) {
      assert f in multiset(rest);
    }
  }

  /** Some `.dsc` file contains one of `names`. */
  function AnyMatch(dsc: seq<string>, names: seq<string>): (b: bool)
    ensures b <==> exists i :: 0 <= i < |names| && Claim(dsc, names[i]).Some?
  {
    if names == [] then false
    else
      var init := names[..|names| - 1];
      assert forall i :: 0 <= i < |init| ==> init[i] == names[i];
      AnyMatch(dsc, init) || Claim(dsc, names[|names| - 1]).Some?
  }

  /** The loop as written raises `ValueError` exactly when some name is contained in a `.dsc` file. */
  lemma {:induction false} AsWrittenPlaceAll(p: Progress, names: seq<string>)
    requires forall f :: f in p.left.dsc ==> IsDsc(f)
    requires forall f :: f in p.left.deb ==> IsDeb(f)
    ensures PlaceAll(p, names, false).0.Err? <==> AnyMatch(p.left.dsc, names)
    ensures PlaceAll(p, names, false).0.Err? ==> PlaceAll(p, names, false).0.error == NotInList
    ensures PlaceAll(p, names, false).0.Ok? ==>
      PlaceAll(p, names, false).1.left.dsc == p.left.dsc && forall f :: f in PlaceAll(p, names, false).1.left.deb ==> IsDeb(f)
  {
    if names != [] {
      var init := names[..|names| - 1];
      var last := names[|names| - 1];
      AsWrittenPlaceAll(p, init);
      var mid := PlaceAll(p, init, false);
      if mid.0.Ok? {
        AsWrittenPlace(mid.1, last);
      }
    }
  }

  /** As written, `reorganize` succeeds only on a listing without `.dsc` files: the first name that
      matches a `.dsc` file copies it and then `dsc_files.remove(deb_package)` raises. */
  lemma AsWrittenReorganize(files: seq<string>)
    ensures ReorganizeSpec(files, false).0.Ok? <==> PackageNames(Bucket(files)).Ok? && Bucket(files).dsc == []
    ensures PackageNames(Bucket(files)).Ok? && Bucket(files).dsc != [] ==> ReorganizeSpec(files, false).0 == Err(NotInList)
  {
    var b := Bucket(files);
    if PackageNames(b).Ok? {
      var names := SortLongestFirst(PackageNames(b).value);
      AsWrittenPlaceAll(Progress(b, [], []), names);
      var fin := PlaceAll(Progress(b, [], []), names, false);
      assert ReorganizeSpec(files, false) == (fin.0, fin.1.copies, fin.1.dirs);
      if b.dsc != [] {
        DscMatched(b);
      }
    }
  }

  /** The name of the first `.dsc` file is one of the names, and that file contains it. */
  lemma DscMatched(b: Buckets)
    requires PackageNames(b).Ok? && b.dsc != []
    ensures AnyMatch(b.dsc, SortLongestFirst(PackageNames(b).value))
  {
    var names := SortLongestFirst(PackageNames(b).value);
    var f := b.dsc[0];
    DscNameListed(b, 0);
    var x := Canonical(f, "").value;
    CanonicalPrefix(f, "");
    assert OccursAt(f, x, 0);
    assert x in multiset(names);
    var i :| 0 <= i < |names| && names[i] == x;
    assert f in b.dsc && Contains(f, names[i]);
    ClaimFirst(b.dsc, names[i]);
  }

  /** On a listing without `.dsc` files the defect never fires: as written and fixed agree. */
  lemma PlaceSameWithoutDsc(p: Progress, name: string)
    requires p.left.dsc == []
    ensures Place(p, name, false) == Place(p, name, true) && Place(p, name, true).1.left.dsc == []
  {
    assert Claim(p.left.dsc, name).None?;
  }

  lemma {:induction false} PlaceAllSameWithoutDsc(p: Progress, names: seq<string>)
    requires p.left.dsc == []
    ensures PlaceAll(p, names, false) == PlaceAll(p, names, true) && PlaceAll(p, names, true).1.left.dsc == []
  {
    if names != [] {
      var init := names[..|names| - 1];
      PlaceAllSameWithoutDsc(p, init);
      var mid := PlaceAll(p, init, true);
      if mid.0.Ok? {
        PlaceSameWithoutDsc(mid.1, names[|names| - 1]);
      }
    }
  }

  /** Without `.dsc` files, `reorganize` as written does what the fixed version does. */
  lemma AsWrittenWithoutDsc(files: seq<string>)
    requires Bucket(files).dsc == []
    ensures ReorganizeSpec(files, false) == ReorganizeSpec(files, true)
  {
    var b := Bucket(files);
    if PackageNames(b).Ok? {
      PlaceAllSameWithoutDsc(Progress(b, [], []), SortLongestFirst(PackageNames(b).value));
    }
  }
}
