/** The build drivers of `PackageBuilder` (ubuntu/build_deb.py): `load_packages`, `build_all_packages` and
    `build_specific_package` over the descriptor table `self.packages`. `build_package` runs `sbuild`; here it is
    an abstract step that appends the key of the descriptor it builds to the trace `built`. */
module Builder {

  import opened Wrappers
  import opened Collections
  import opened BuildDeb
  import opened BuildOrder

  /** A `debian` directory reported by the directory walk: its path (the descriptor key) and the lines of its
      `control` file, or `None` when that file does not exist. */
  type DebianDir = (string, Option<seq<string>>)

  /** What the tuple unpacking at line 96 raises when the control reader returns `[]`. */
  const UnpackError: PyError := ValueError("not enough values to unpack (expected 2, got 0)")

  /** Two tables hold the same descriptors up to their `visited` flags. */
  ghost predicate SameEntries(a: seq<Descriptor>, b: seq<Descriptor>)
  {
    && |a| == |b|
    && forall i :: 0 <= i < |a| ==>
         a[i].key == b[i].key && a[i].packages == b[i].packages && a[i].dependencies == b[i].dependencies
  }

  // ---------------------------------------------------------------------------------------------
  // load_packages (lines 90-104)
  // ---------------------------------------------------------------------------------------------

  /** The control file of a directory yields a descriptor. */
  predicate Loads(c: Option<seq<string>>)
  {
    ControlSpec(c).Ok? && ControlSpec(c).value.Parsed?
  }

  /** The descriptor stored for a directory whose control file loads. */
  function Loaded(dir: DebianDir): Descriptor
    requires Loads(dir.1)
  {
    var c := ControlSpec(dir.1).value;
    Descriptor(dir.0, c.packages, c.dependencies, false)
  }

  /** The loop of `load_packages`: the outcome and the table it leaves, stopping at the first directory whose
      control file makes the reader exit, index a missing continuation, or return `[]`. */
  function LoadSpec(table: seq<Descriptor>, dirs: seq<DebianDir>): (r: (Result<()>, seq<Descriptor>))
    requires KeysDistinct(table)
    ensures KeysDistinct(r.1)
    decreases |dirs|
  {
    if dirs == [] then (Ok(()), table)
    else
      match ControlSpec(dirs[0].1)
      case Err(e) => (Err(e), table)
      case Ok(Missing) => (Err(UnpackError), table)
      case Ok(Parsed(_, _)) => LoadSpec(PutDescriptor(table, Loaded(dirs[0])), dirs[1..])
  }

  /** The descriptor with key `k`. */
  function Lookup(table: seq<Descriptor>, k: string): Descriptor
    requires HasKey(table, k)
  {
    table[KeyIndex(table, k)]
  }

  lemma PutLookup(table: seq<Descriptor>, d: Descriptor, k: string)
    requires KeysDistinct(table) && (k == d.key || HasKey(table, k))
    ensures HasKey(PutDescriptor(table, d), k)
    ensures Lookup(PutDescriptor(table, d), k) == if k == d.key then d else Lookup(table, k)
  {
    PutHasKeys(table, d, k);
    var r := PutDescriptor(table, d);
    var n := KeyIndex(r, k);
    if k != d.key {
      var m := KeyIndex(table, k);
      assert r[m] == table[m];
      assert n == m;
    } else if !HasKey(table, k) {
      assert r[|table|] == d;
      assert n == |table|;
    }
  }

  /** Loading fails exactly when some directory's control file does not yield a descriptor. */
  lemma {:induction false} LoadFails(table: seq<Descriptor>, dirs: seq<DebianDir>)
    requires KeysDistinct(table)
    ensures LoadSpec(table, dirs).0.Err? <==> exists j :: 0 <= j < |dirs| && !Loads(dirs[j].1)
    decreases |dirs|
  {
    if dirs != [] {
      if Loads(dirs[0].1) {
        LoadFails(PutDescriptor(table, Loaded(dirs[0])), dirs[1..]);
        if exists j :: 0 <= j < |dirs| && !Loads(dirs[j].1) {
          var j :| 0 <= j < |dirs| && !Loads(dirs[j].1);
          assert !Loads(dirs[1..][j - 1].1);
        }
      }
    }
  }

  /** After a successful load every directory has its descriptor, unvisited, with the packages and dependencies
      its control file lists; every other key keeps its descriptor. */
  lemma {:induction false} LoadStores(table: seq<Descriptor>, dirs: seq<DebianDir>, k: string)
    requires KeysDistinct(table) && LoadSpec(table, dirs).0.Ok?
    requires forall i, j :: 0 <= i < j < |dirs| ==> dirs[i].0 != dirs[j].0
    ensures forall j :: 0 <= j < |dirs| ==> Loads(dirs[j].1)
    ensures HasKey(LoadSpec(table, dirs).1, k) <==> HasKey(table, k) || exists j :: 0 <= j < |dirs| && dirs[j].0 == k
    ensures forall j :: 0 <= j < |dirs| && dirs[j].0 == k ==> Lookup(LoadSpec(table, dirs).1, k) == Loaded(dirs[j])
    ensures HasKey(table, k) && (forall j :: 0 <= j < |dirs| ==> dirs[j].0 != k) ==>
              Lookup(LoadSpec(table, dirs).1, k) == Lookup(table, k)
    decreases |dirs|
  {
    LoadFails(table, dirs);
    if dirs != [] {
      var d := Loaded(dirs[0]);
      var t' := PutDescriptor(table, d);
      var rest := dirs[1..];
      forall i, j | 0 <= i < j < |rest| ensures rest[i].0 != rest[j].0 {
        assert rest[i] == dirs[i + 1] && rest[j] == dirs[j + 1];
      }
      LoadStores(t', rest, k);
      PutHasKeys(table, d, k);
      if k == d.key || HasKey(table, k) {
        PutLookup(table, d, k);
      }
      if exists j :: 0 <= j < |dirs| && dirs[j].0 == k {
        var j :| 0 <= j < |dirs| && dirs[j].0 == k;
        if j > 0 {
          assert rest[j - 1].0 == k;
        }
      }
      forall j | 0 <= j < |rest| && rest[j].0 == k ensures j + 1 < |dirs| && dirs[j + 1].0 == k {
      }
    }
  }

  // ---------------------------------------------------------------------------------------------
  // build_all_packages (lines 307-316)
  // ---------------------------------------------------------------------------------------------

  /** A descriptor the loops may still build for `name`: not visited and producing it. */
  predicate Claimable(d: Descriptor, name: string)
  {
    !d.visited && name in d.packages
  }

  /** The inner loop's `break`: the first claimable descriptor for `name`, or -1. */
  function FirstClaimable(table: seq<Descriptor>, name: string): (i: int)
    ensures -1 <= i < |table|
    ensures i >= 0 ==> Claimable(table[i], name)
    ensures forall j :: 0 <= j < |table| && (i < 0 || j < i) ==> !Claimable(table[j], name)
  {
    if table == [] then -1
    else if Claimable(table[0], name) then 0
    else
      var j := FirstClaimable(table[1..], name);
      assert forall k :: 1 <= k < |table| ==> table[k] == table[1..][k - 1];
      if j < 0 then -1 else j + 1
  }

  /** One pass of the inner loop for `name`: build the first claimable descriptor and mark it visited. */
  function BuildName(table: seq<Descriptor>, name: string): (seq<Descriptor>, seq<string>)
  {
    var i := FirstClaimable(table, name);
    if i < 0 then (table, []) else (table[i := table[i].(visited := true)], [table[i].key])
  }

  /** The outer loop over `sorted_order`: the final table and the keys built, in build order. */
  function BuildInOrder(table: seq<Descriptor>, order: seq<string>): (seq<Descriptor>, seq<string>)
  {
    if order == [] then (table, [])
    else
      var p := BuildInOrder(table, order[..|order| - 1]);
      var s := BuildName(p.0, order[|order| - 1]);
      (s.0, p.1 + s.1)
  }

  /** `build_all_packages`: a `None` order (a detected cycle) makes `for pkg in sorted_order` raise `TypeError`
      before anything is built. */
  ghost function BuildAllSpec(table: seq<Descriptor>): (Result<()>, seq<Descriptor>, seq<string>)
  {
    match DetectCycleSpec(table)
    case Err(e) => (Err(e), table, [])
    case Ok(None) => (Err(TypeError), table, [])
    case Ok(Some(order)) =>
      var b := BuildInOrder(table, order);
      (Ok(()), b.0, b.1)
  }

  /** Some name of `order` is produced by `d`. */
  ghost predicate ProducesSome(d: Descriptor, order: seq<string>)
  {
    exists x :: x in order && x in d.packages
  }

  /** Each name is produced by at most one descriptor. */
  ghost predicate UniqueProducers(table: seq<Descriptor>)
  {
    forall i, j, x :: 0 <= i < |table| && 0 <= j < |table| && i != j && x in table[i].packages ==>
      x !in table[j].packages
  }

  /** Building in order builds each descriptor at most once, only descriptors unvisited at the start, and marks
      exactly those visited; nothing but the flags changes. */
  lemma {:induction false} BuildInOrderOnce(table: seq<Descriptor>, order: seq<string>)
    requires KeysDistinct(table)
    ensures var r := BuildInOrder(table, order);
      && SameEntries(table, r.0)
      && NoDups(r.1)
      && (forall i :: 0 <= i < |table| ==> (r.0[i].visited <==> table[i].visited || table[i].key in r.1))
      && (forall i :: 0 <= i < |table| && table[i].key in r.1 ==> !table[i].visited)
      && (forall k :: k in r.1 ==> HasKey(table, k))
  {
    if order != [] {
      var pre := order[..|order| - 1];
      var name := order[|order| - 1];
      BuildInOrderOnce(table, pre);
      var p := BuildInOrder(table, pre);
      var i := FirstClaimable(p.0, name);
      if i >= 0 {
        assert p.0[i].key == table[i].key;
        assert table[i].key !in p.1;
        assert HasKey(table, table[i].key);
      }
    }
  }

  /** Whatever is built produces some name of the order. */
  lemma {:induction false} BuildInOrderSound(table: seq<Descriptor>, order: seq<string>)
    requires KeysDistinct(table)
    ensures forall i :: 0 <= i < |table| && table[i].key in BuildInOrder(table, order).1 ==>
      ProducesSome(table[i], order)
  {
    if order != [] {
      var pre := order[..|order| - 1];
      var name := order[|order| - 1];
      BuildInOrderSound(table, pre);
      BuildInOrderOnce(table, pre);
      var p := BuildInOrder(table, pre);
      var j := FirstClaimable(p.0, name);
      forall i | 0 <= i < |table| && table[i].key in BuildInOrder(table, order).1
        ensures ProducesSome(table[i], order)
      {
        if table[i].key in p.1 {
          var x :| x in pre && x in table[i].packages;
          assert x in order;
        } else {
          assert j >= 0 && table[i].key == p.0[j].key;
          assert i == j;
          assert name in table[i].packages;
        }
      }
    }
  }

  /** With unique producers, every descriptor unvisited at the start that produces a name of the order is built. */
  lemma {:induction false} BuildInOrderComplete(table: seq<Descriptor>, order: seq<string>)
    requires KeysDistinct(table) && UniqueProducers(table)
    ensures forall i :: 0 <= i < |table| && !table[i].visited && ProducesSome(table[i], order) ==>
      table[i].key in BuildInOrder(table, order).1
  {
    if order != [] {
      var pre := order[..|order| - 1];
      var name := order[|order| - 1];
      BuildInOrderComplete(table, pre);
      BuildInOrderOnce(table, pre);
      var p := BuildInOrder(table, pre);
      forall i | 0 <= i < |table| && !table[i].visited && ProducesSome(table[i], order)
        ensures table[i].key in BuildInOrder(table, order).1
      {
        var x :| x in order && x in table[i].packages;
        if x in pre {
          assert ProducesSome(table[i], pre);
        } else if table[i].key !in p.1 {
          assert x == name;
          assert Claimable(p.0[i], name);
          var j := FirstClaimable(p.0, name);
          assert j >= 0 && name in table[j].packages;
          assert j == i;
        }
      }
    }
  }

  /** The keys built for a prefix of the order come first. */
  lemma {:induction false} BuildInOrderPrefix(table: seq<Descriptor>, order: seq<string>, k: nat)
    requires k <= |order|
    ensures BuildInOrder(table, order[..k]).1 <= BuildInOrder(table, order).1
    decreases |order|
  {
    if k < |order| {
      var pre := order[..|order| - 1];
      assert order[..k] == pre[..k];
      BuildInOrderPrefix(table, pre, k);
    } else {
      assert order[..k] == order;
    }
  }

  /** An element of a prefix comes, in the whole sequence, before one the prefix lacks. */
  lemma IndexOfAcrossPrefix<T>(s: seq<T>, head: seq<T>, x: T, y: T)
    requires head <= s && x in head && y !in head && y in s
    ensures IndexOf(s, x) < IndexOf(s, y)
  {
    var ix := IndexOf(head, x);
    assert s[ix] == x;
    assert forall k :: 0 <= k < |head| ==> s[k] == head[k];
  }

  /** Building the names before the first one `a` produces builds `b`, which produces one of them, and
      not `a`. */
  lemma PrefixBuildsOnly(table: seq<Descriptor>, order: seq<string>, a: nat, b: nat, jd: nat, p: nat)
    requires KeysDistinct(table) && UniqueProducers(table)
    requires a < |table| && b < |table| && jd < p < |order|
    requires order[jd] in table[b].packages
    requires forall k :: 0 <= k < p ==> order[k] !in table[a].packages
    requires table[b].key in BuildInOrder(table, order).1
    ensures table[b].key in BuildInOrder(table, order[..p]).1
    ensures table[a].key !in BuildInOrder(table, order[..p]).1
  {
    var head := BuildInOrder(table, order[..p]).1;
    BuildInOrderOnce(table, order);
    assert !table[b].visited;
    assert order[..p][jd] == order[jd];
    BuildInOrderComplete(table, order[..p]);
    BuildInOrderSound(table, order[..p]);
    forall x | x in order[..p] ensures x !in table[a].packages {
      var k :| 0 <= k < p && order[..p][k] == x;
    }
  }

  /** The core of the dependency-first guarantee: if `b` produces a name occurring before every name `a`
      produces, and both are built, `b` is built first. */
  lemma BuiltBefore(table: seq<Descriptor>, order: seq<string>, a: nat, b: nat, jd: nat, p: nat)
    requires KeysDistinct(table) && UniqueProducers(table)
    requires a < |table| && b < |table| && jd < p < |order|
    requires order[jd] in table[b].packages
    requires forall k :: 0 <= k < p ==> order[k] !in table[a].packages
    requires table[a].key in BuildInOrder(table, order).1 && table[b].key in BuildInOrder(table, order).1
    ensures IndexOf(BuildInOrder(table, order).1, table[b].key) < IndexOf(BuildInOrder(table, order).1, table[a].key)
  {
    BuildInOrderPrefix(table, order, p);
    PrefixBuildsOnly(table, order, a, b, jd, p);
    IndexOfAcrossPrefix(BuildInOrder(table, order).1, BuildInOrder(table, order[..p]).1, table[b].key, table[a].key);
  }

  /** `build_all_packages` over a topological order of the dependency graph, with unique producers: whenever
      `a` build-depends on a binary that `b` produces and both are built, `b` is built before `a`. */
  lemma BuildAllDependencyFirst(table: seq<Descriptor>, order: seq<string>, a: nat, b: nat, dep: string)
    requires KeysDistinct(table) && UniqueProducers(table)
    requires IsTopoOrder(order, Vertices(table), EdgesOf(table))
    requires a < |table| && b < |table|
    requires dep in table[a].dependencies && dep in table[b].packages
    requires table[a].key in BuildInOrder(table, order).1 && table[b].key in BuildInOrder(table, order).1
    ensures IndexOf(BuildInOrder(table, order).1, table[b].key) < IndexOf(BuildInOrder(table, order).1, table[a].key)
  {
    BuildInOrderOnce(table, order);
    BuildInOrderSound(table, order);
    var x0 :| x0 in order && x0 in table[a].packages;
    var p := FirstIn(order, table[a].packages, x0);
    var bin := order[p];
    var e := (dep, bin);
    assert EdgeOfDescriptor(table, a, e);
    EdgesOfMembers(table, e);
    EdgesJoinVertices(table);
    assert dep in order;
    var jd :| 0 <= jd < |order| && order[jd] == dep;
    assert (order[jd], order[p]) in EdgesOf(table);
    assert jd < p;
    BuiltBefore(table, order, a, b, jd, p);
  }

  /** The first position of `order` holding a member of `names`. */
  function FirstIn(order: seq<string>, names: seq<string>, x: string): (p: nat)
    requires x in order && x in names
    ensures p < |order| && order[p] in names
    ensures forall k :: 0 <= k < p ==> order[k] !in names
  {
    if order[0] in names then 0
    else
      assert x in order[1..];
      var p := FirstIn(order[1..], names, x);
      assert forall k :: 0 < k <= p ==> order[k] == order[1..][k - 1];
      p + 1
  }

  /** With a root vertex, `build_all_packages` fails exactly when the graph has no topological order, and then
      it raises `TypeError` before building anything. */
  lemma BuildAllCycle(table: seq<Descriptor>)
    requires table != [] && HasRoot(table)
    ensures BuildAllSpec(table).0.Err? <==> forall t :: !IsTopoOrder(t, Vertices(table), EdgesOf(table))
    ensures BuildAllSpec(table).0.Err? ==> BuildAllSpec(table) == (Err(TypeError), table, [])
  {
    DetectCycleWithRoot(table);
  }

  /** With a root vertex and unique producers, `build_all_packages` builds every unvisited descriptor that
      produces something, each exactly once. */
  lemma BuildAllBuildsEach(table: seq<Descriptor>)
    requires KeysDistinct(table) && UniqueProducers(table) && table != [] && HasRoot(table)
    ensures NoDups(BuildAllSpec(table).2)
    ensures BuildAllSpec(table).0.Ok? ==>
      forall i :: 0 <= i < |table| && !table[i].visited && table[i].packages != [] ==> table[i].key in BuildAllSpec(table).2
  {
    DetectCycleWithRoot(table);
    if DetectCycleSpec(table).value.Some? {
      var order := DetectCycleSpec(table).value.value;
      BuildInOrderOnce(table, order);
      BuildInOrderComplete(table, order);
      forall i | 0 <= i < |table| && !table[i].visited && table[i].packages != []
        ensures ProducesSome(table[i], order)
      {
        var x := table[i].packages[0];
        VerticesMembers(table, x);
        assert x in Vertices(table);
      }
    }
  }

  // ---------------------------------------------------------------------------------------------
  // build_specific_package (lines 318-342)
  // ---------------------------------------------------------------------------------------------

  /** What `build_specific_package` returns: `False` when no unvisited descriptor produces the name, and `None`
      (falling off the end) otherwise. */
  datatype Returned = ReturnedFalse | ReturnedNone

  /** An outcome, the table after the call, and the keys built during it. */
  type Outcome<T> = (Result<T>, seq<Descriptor>, seq<string>)

  /** `outcome` preceded by the builds in `trace`. */
  function After<T>(trace: seq<string>, outcome: Outcome<T>): Outcome<T>
  {
    (outcome.0, outcome.1, trace + outcome.2)
  }

  /** `build_specific_package(name)` with `fuel` levels of recursion left before Python's recursion limit. */
  function Specific(table: seq<Descriptor>, fuel: nat, name: string): (r: Outcome<Returned>)
    ensures SameEntries(table, r.1)
    decreases fuel, 2, 0
  {
    if fuel == 0 then (Err(RecursionError), table, [])
    else SpecificFrom(table, fuel, name, 0, false)
  }

  /** The loop `for package in self.packages` from position `i` on, with the current `found` flag. */
  function SpecificFrom(table: seq<Descriptor>, fuel: nat, name: string, i: nat, found: bool): (r: Outcome<Returned>)
    requires fuel > 0 && i <= |table|
    ensures SameEntries(table, r.1)
    decreases fuel, 1, |table| - i
  {
    if i == |table| then (Ok(if found then ReturnedNone else ReturnedFalse), table, [])
    else if Claimable(table[i], name) then
      var d := Deps(table, fuel, i, 0);
      if d.0.Err? then (Err(d.0.error), d.1, d.2)
      else After(d.2 + [table[i].key], SpecificFrom(d.1, fuel, name, i + 1, true))
    else SpecificFrom(table, fuel, name, i + 1, found)
  }

  /** The loop over the dependencies of descriptor `i` from the `j`-th on: recurse, then mark `i` visited. */
  function Deps(table: seq<Descriptor>, fuel: nat, i: nat, j: nat): (r: Outcome<()>)
    requires fuel > 0 && i < |table| && j <= |table[i].dependencies|
    ensures SameEntries(table, r.1)
    decreases fuel, 0, |table[i].dependencies| - j
  {
    if j == |table[i].dependencies| then (Ok(()), table, [])
    else
      var s := Specific(table, fuel - 1, table[i].dependencies[j]);
      if s.0.Err? then (Err(s.0.error), s.1, s.2)
      else After(s.2, Deps(s.1[i := s.1[i].(visited := true)], fuel, i, j + 1))
  }

  /** Once `found` is set the call can no longer return `False`. */
  lemma {:induction false} FoundStays(table: seq<Descriptor>, fuel: nat, name: string, i: nat)
    requires fuel > 0 && i <= |table|
    ensures SpecificFrom(table, fuel, name, i, true).0 != Ok(ReturnedFalse)
    decreases |table| - i
  {
    if i < |table| {
      if Claimable(table[i], name) {
        var d := Deps(table, fuel, i, 0);
        if d.0.Ok? {
          FoundStays(d.1, fuel, name, i + 1);
        }
      } else {
        FoundStays(table, fuel, name, i + 1);
      }
    }
  }

  /** Without a claimable descriptor from `i` on the loop does nothing. */
  lemma {:induction false} NothingToScan(table: seq<Descriptor>, fuel: nat, name: string, i: nat, found: bool)
    requires fuel > 0 && i <= |table|
    requires forall k :: i <= k < |table| ==> !Claimable(table[k], name)
    ensures SpecificFrom(table, fuel, name, i, found) == (Ok(if found then ReturnedNone else ReturnedFalse), table, [])
    decreases |table| - i
  {
    if i < |table| {
      NothingToScan(table, fuel, name, i + 1, found);
    }
  }

  /** With recursion left, `build_specific_package` returns `False` exactly when no unvisited descriptor
      produces the name, and then it builds and changes nothing; out of recursion it raises `RecursionError`. */
  lemma SpecificNotFound(table: seq<Descriptor>, fuel: nat, name: string)
    ensures fuel == 0 ==> Specific(table, fuel, name) == (Err(RecursionError), table, [])
    ensures fuel > 0 ==>
      (Specific(table, fuel, name).0 == Ok(ReturnedFalse) <==> forall k :: 0 <= k < |table| ==> !Claimable(table[k], name))
    ensures fuel > 0 && (forall k :: 0 <= k < |table| ==> !Claimable(table[k], name)) ==>
      Specific(table, fuel, name) == (Ok(ReturnedFalse), table, [])
  {
    if fuel > 0 {
      if forall k :: 0 <= k < |table| ==> !Claimable(table[k], name) {
        NothingToScan(table, fuel, name, 0, false);
      } else {
        var k := FirstClaimable(table, name);
        NothingBefore(table, fuel, name, k);
        var d := Deps(table, fuel, k, 0);
        if d.0.Ok? {
          FoundStays(d.1, fuel, name, k + 1);
        }
      }
    }
  }

  /** The loop skips the descriptors before the first claimable one. */
  lemma NothingBefore(table: seq<Descriptor>, fuel: nat, name: string, k: int)
    requires fuel > 0 && 0 <= k < |table| && Claimable(table[k], name)
    requires forall j :: 0 <= j < k ==> !Claimable(table[j], name)
    ensures SpecificFrom(table, fuel, name, 0, false) == SpecificFrom(table, fuel, name, k, false)
  {
    var i := k;
    while i > 0
      invariant 0 <= i <= k
      invariant SpecificFrom(table, fuel, name, i, false) == SpecificFrom(table, fuel, name, k, false)
    {
      i := i - 1;
    }
  }

  /** No `visited` flag is ever cleared. */
  ghost predicate Grows(a: seq<Descriptor>, b: seq<Descriptor>)
  {
    |a| == |b| && forall k :: 0 <= k < |a| && a[k].visited ==> b[k].visited
  }

  /** Every descriptor of `a` other than `except` that is marked visited in `b` but was not in `a` has
      its key in `trace`. */
  ghost predicate MarkedBuilt(a: seq<Descriptor>, b: seq<Descriptor>, trace: seq<string>, except: int)
  {
    |a| == |b| && forall k :: 0 <= k < |a| && k != except && !a[k].visited && b[k].visited ==> a[k].key in trace
  }

  /** A call that returns builds every descriptor that produced the name and was unvisited when the call
      began, whether the scan claims it itself or a dependency's recursion marked it visited first; no
      flag is cleared, and every descriptor the call marks visited is built during it. */
  lemma {:induction false} SpecificBuildsEach(table: seq<Descriptor>, fuel: nat, name: string)
    ensures var r := Specific(table, fuel, name);
      && Grows(table, r.1)
      && (r.0.Ok? ==> MarkedBuilt(table, r.1, r.2, -1))
      && (r.0.Ok? ==> forall k :: 0 <= k < |table| && Claimable(table[k], name) ==> table[k].key in r.2)
    decreases fuel, 2, 0
  {
    if fuel > 0 {
      SpecificFromBuildsEach(table, fuel, name, 0, false);
    }
  }

  lemma {:induction false} SpecificFromBuildsEach(table: seq<Descriptor>, fuel: nat, name: string, i: nat, found: bool)
    requires fuel > 0 && i <= |table|
    ensures var r := SpecificFrom(table, fuel, name, i, found);
      && Grows(table, r.1)
      && (r.0.Ok? ==> MarkedBuilt(table, r.1, r.2, -1))
      && (r.0.Ok? ==> forall k :: i <= k < |table| && Claimable(table[k], name) ==> table[k].key in r.2)
    decreases fuel, 1, |table| - i
  {
    if i < |table| {
      if Claimable(table[i], name) {
        var d := Deps(table, fuel, i, 0);
        DepsBuildsEach(table, fuel, i, 0);
        if d.0.Ok? {
          var rest := SpecificFrom(d.1, fuel, name, i + 1, true);
          SpecificFromBuildsEach(d.1, fuel, name, i + 1, true);
          var tr := d.2 + [table[i].key] + rest.2;
          assert SpecificFrom(table, fuel, name, i, found) == (rest.0, rest.1, tr);
          if rest.0.Ok? {
            forall k | 0 <= k < |table| && !table[k].visited && rest.1[k].visited
              ensures table[k].key in tr
            {
              if k == i {
                assert tr[|d.2|] == table[i].key;
              } else if d.1[k].visited {
                assert table[k].key in d.2;
              } else {
                assert d.1[k].key in rest.2;
              }
            }
            forall k | i <= k < |table| && Claimable(table[k], name)
              ensures table[k].key in tr
            {
              if k == i {
                assert tr[|d.2|] == table[i].key;
              } else if Claimable(d.1[k], name) {
                assert d.1[k].key in rest.2;
              } else {
                assert table[k].key in d.2;
              }
            }
          }
        }
      } else {
        SpecificFromBuildsEach(table, fuel, name, i + 1, found);
      }
    }
  }

  /** The dependency loop of descriptor `i`, resumed at its `j`-th dependency with `table` as it stands at
      that recursive call: when it returns, every descriptor that was claimable for that dependency there
      is built within the loop, and so before `i` itself; `i` is the only descriptor the loop marks
      visited without building it. */
  lemma {:induction false} DepsBuildsEach(table: seq<Descriptor>, fuel: nat, i: nat, j: nat)
    requires fuel > 0 && i < |table| && j <= |table[i].dependencies|
    ensures var r := Deps(table, fuel, i, j);
      && Grows(table, r.1)
      && (r.0.Ok? ==> MarkedBuilt(table, r.1, r.2, i))
      && (r.0.Ok? && j < |table[i].dependencies| ==>
            forall m :: 0 <= m < |table| && Claimable(table[m], table[i].dependencies[j]) ==> table[m].key in r.2)
    decreases fuel, 0, |table[i].dependencies| - j
  {
    if j < |table[i].dependencies| {
      var s := Specific(table, fuel - 1, table[i].dependencies[j]);
      SpecificBuildsEach(table, fuel - 1, table[i].dependencies[j]);
      if s.0.Ok? {
        var t2 := s.1[i := s.1[i].(visited := true)];
        var rest := Deps(t2, fuel, i, j + 1);
        DepsBuildsEach(t2, fuel, i, j + 1);
        assert Deps(table, fuel, i, j) == (rest.0, rest.1, s.2 + rest.2);
        if rest.0.Ok? {
          forall k | 0 <= k < |table| && k != i && !table[k].visited && rest.1[k].visited
            ensures table[k].key in s.2 + rest.2
          {
            if s.1[k].visited {
              assert table[k].key in s.2;
            } else {
              assert t2[k].key in rest.2;
            }
          }
        }
      }
    }
  }

  /** Dependencies first: when the package loop claims descriptor `i` and the call returns, the trace
      holds the builds of `i`'s dependency loop, then `i`'s key; every descriptor that was claimable for
      `i`'s first dependency is built in that prefix (and for each later dependency, `DepsBuildsEach`
      says the same of the table at its recursive call). */
  lemma ClaimBuildsDependenciesFirst(table: seq<Descriptor>, fuel: nat, name: string, i: nat, found: bool)
    requires fuel > 0 && i < |table| && Claimable(table[i], name)
    requires SpecificFrom(table, fuel, name, i, found).0.Ok?
    ensures var d := Deps(table, fuel, i, 0);
      var tr := SpecificFrom(table, fuel, name, i, found).2;
      && d.0.Ok?
      && |d.2| < |tr| && tr[..|d.2|] == d.2 && tr[|d.2|] == table[i].key
      && (table[i].dependencies != [] ==>
            forall m :: 0 <= m < |table| && Claimable(table[m], table[i].dependencies[0]) ==> table[m].key in tr[..|d.2|])
  {
    var d := Deps(table, fuel, i, 0);
    DepsBuildsEach(table, fuel, i, 0);
    var rest := SpecificFrom(d.1, fuel, name, i + 1, true);
    var tr := d.2 + [table[i].key] + rest.2;
    assert tr[..|d.2|] == d.2;
  }

  /** A set of names, each produced by an unvisited descriptor, where the first unvisited producer of
      each name (the one the package loop claims) has a first dependency that is again in the set: asking
      for any of them recurses until the recursion limit, whatever that limit is, and builds and marks
      nothing. */
  lemma {:induction false} ClosedRecursion(table: seq<Descriptor>, names: set<string>, fuel: nat, name: string)
    requires name in names
    requires forall n {:trigger FirstClaimable(table, n)} :: n in names ==>
      && FirstClaimable(table, n) >= 0
      && table[FirstClaimable(table, n)].dependencies != []
      && table[FirstClaimable(table, n)].dependencies[0] in names
    ensures Specific(table, fuel, name) == (Err(RecursionError), table, [])
    decreases fuel
  {
    if fuel > 0 {
      var k := FirstClaimable(table, name);
      NothingBefore(table, fuel, name, k);
      var dep := table[k].dependencies[0];
      ClosedRecursion(table, names, fuel - 1, dep);
      DepsFirstRaises(table, fuel, k);
      assert SpecificFrom(table, fuel, name, k, false) == (Err(RecursionError), table, []);
    }
  }

  /** A dependency loop whose first recursion raises raises the same, with the table and trace it left. */
  lemma DepsFirstRaises(table: seq<Descriptor>, fuel: nat, i: nat)
    requires fuel > 0 && i < |table| && table[i].dependencies != []
    requires Specific(table, fuel - 1, table[i].dependencies[0]).0.Err?
    ensures var s := Specific(table, fuel - 1, table[i].dependencies[0]);
      Deps(table, fuel, i, 0) == (Err(s.0.error), s.1, s.2)
  {
  }

  /** A descriptor without dependencies is never marked visited: `visited` is only set inside the dependency
      loop, so the same descriptor is built again by every later request for one of its names. */
  lemma {:induction false} SpecificKeepsFlag(table: seq<Descriptor>, fuel: nat, name: string, k: nat)
    requires k < |table| && table[k].dependencies == []
    ensures Specific(table, fuel, name).1[k].visited == table[k].visited
    decreases fuel, 2, 0
  {
    if fuel > 0 {
      SpecificFromKeepsFlag(table, fuel, name, 0, false, k);
    }
  }

  lemma {:induction false} SpecificFromKeepsFlag(table: seq<Descriptor>, fuel: nat, name: string, i: nat, found: bool, k: nat)
    requires fuel > 0 && i <= |table| && k < |table| && table[k].dependencies == []
    ensures SpecificFrom(table, fuel, name, i, found).1[k].visited == table[k].visited
    decreases fuel, 1, |table| - i
  {
    if i < |table| {
      if Claimable(table[i], name) {
        DepsKeepsFlag(table, fuel, i, 0, k);
        var d := Deps(table, fuel, i, 0);
        if d.0.Ok? {
          SpecificFromKeepsFlag(d.1, fuel, name, i + 1, true, k);
        }
      } else {
        SpecificFromKeepsFlag(table, fuel, name, i + 1, found, k);
      }
    }
  }

  lemma {:induction false} DepsKeepsFlag(table: seq<Descriptor>, fuel: nat, i: nat, j: nat, k: nat)
    requires fuel > 0 && i < |table| && j <= |table[i].dependencies| && k < |table| && table[k].dependencies == []
    ensures Deps(table, fuel, i, j).1[k].visited == table[k].visited
    decreases fuel, 0, |table[i].dependencies| - j
  {
    if j < |table[i].dependencies| {
      var s := Specific(table, fuel - 1, table[i].dependencies[j]);
      SpecificKeepsFlag(table, fuel - 1, table[i].dependencies[j], k);
      if s.0.Ok? {
        var t2 := s.1[i := s.1[i].(visited := true)];
        assert i != k;
        DepsKeepsFlag(t2, fuel, i, j + 1, k);
      }
    }
  }

  /** Two sources each build-depending on the other's binary, an instance of `ClosedRecursion` with the
      set of both names: the recursion never returns before the recursion limit, whatever that limit is,
      and nothing is built or marked. */
  lemma CycleRecursion(fuel: nat)
    ensures var t := [Descriptor("a/debian", ["a"], ["b"], false), Descriptor("b/debian", ["b"], ["a"], false)];
      && Specific(t, fuel, "a") == (Err(RecursionError), t, [])
      && Specific(t, fuel, "b") == (Err(RecursionError), t, [])
  {
    var t := [Descriptor("a/debian", ["a"], ["b"], false), Descriptor("b/debian", ["b"], ["a"], false)];
    assert !Claimable(t[0], "b");
    assert FirstClaimable(t, "a") == 0 && FirstClaimable(t, "b") == 1;
    ClosedRecursion(t, {"a", "b"}, fuel, "a");
    ClosedRecursion(t, {"a", "b"}, fuel, "b");
  }

  /** `a` build-depends on `b`, which has no dependencies: `b` is built before `a`, `a` is marked visited but
      `b` is not, and the call returns `None`. */
  lemma ChainExample(fuel: nat)
    requires fuel >= 2
    ensures var t := [Descriptor("a/debian", ["a"], ["b"], false), Descriptor("b/debian", ["b"], [], false)];
      Specific(t, fuel, "a") ==
        (Ok(ReturnedNone), [Descriptor("a/debian", ["a"], ["b"], true), Descriptor("b/debian", ["b"], [], false)],
         ["b/debian", "a/debian"])
  {
    var t := [Descriptor("a/debian", ["a"], ["b"], false), Descriptor("b/debian", ["b"], [], false)];
    var t' := [Descriptor("a/debian", ["a"], ["b"], true), Descriptor("b/debian", ["b"], [], false)];
    assert !Claimable(t[0], "b");
    assert Deps(t, fuel - 1, 1, 0) == (Ok(()), t, []);
    assert SpecificFrom(t, fuel - 1, "b", 2, true) == (Ok(ReturnedNone), t, []);
    assert [] + ["b/debian"] == ["b/debian"] && ["b/debian"] + [] == ["b/debian"];
    assert SpecificFrom(t, fuel - 1, "b", 1, false) == (Ok(ReturnedNone), t, ["b/debian"]);
    assert SpecificFrom(t, fuel - 1, "b", 0, false) == (Ok(ReturnedNone), t, ["b/debian"]);
    assert Specific(t, fuel - 1, "b") == (Ok(ReturnedNone), t, ["b/debian"]);
    assert t[0 := t[0].(visited := true)] == t';
    assert Deps(t', fuel, 0, 1) == (Ok(()), t', []);
    assert Deps(t, fuel, 0, 0) == (Ok(()), t', ["b/debian"]);
    assert !Claimable(t'[1], "a");
    assert SpecificFrom(t', fuel, "a", 1, true) == (Ok(ReturnedNone), t', []);
    assert ["b/debian"] + ["a/debian"] == ["b/debian", "a/debian"];
    assert ["b/debian", "a/debian"] + [] == ["b/debian", "a/debian"];
    assert SpecificFrom(t, fuel, "a", 0, false) == (Ok(ReturnedNone), t', ["b/debian", "a/debian"]);
  }

  /** Python truth value of the returned object: both `False` and `None` are falsy. */
  predicate Truthy(r: Returned)
  {
    match r
    case ReturnedFalse => false
    case ReturnedNone => false
  }

  /** ubuntu/build.py:221-223 goes on only when the call returned and its result is truthy. */
  predicate CallerAccepts(r: Result<Returned>)
  {
    r.Ok? && Truthy(r.value)
  }

  /** As written, the caller raises "Unable to build" after every request, even one that built the package
      and its dependency (the chain example). */
  lemma CallerAlwaysRaises(table: seq<Descriptor>, fuel: nat, name: string)
    ensures !CallerAccepts(Specific(table, fuel, name).0)
    ensures fuel >= 2 ==>
      var t := [Descriptor("a/debian", ["a"], ["b"], false), Descriptor("b/debian", ["b"], [], false)];
      Specific(t, fuel, "a").2 == ["b/debian", "a/debian"] && !CallerAccepts(Specific(t, fuel, "a").0)
  {
    if fuel >= 2 {
      ChainExample(fuel);
    }
  }

  /** The documented return value: `True` when the package was found and built. */
  function SpecificFixed(table: seq<Descriptor>, fuel: nat, name: string): Result<bool>
  {
    match Specific(table, fuel, name).0
    case Err(e) => Err(e)
    case Ok(ReturnedFalse) => Ok(false)
    case Ok(ReturnedNone) => Ok(true)
  }

  /** With the documented return value the caller goes on exactly when some unvisited descriptor produced the
      name and no error was raised. */
  lemma FixedCallerAccepts(table: seq<Descriptor>, fuel: nat, name: string)
    requires fuel > 0
    ensures SpecificFixed(table, fuel, name) == Ok(true) <==>
      Specific(table, fuel, name).0.Ok? && exists k :: 0 <= k < |table| && Claimable(table[k], name)
  {
    SpecificNotFound(table, fuel, name);
  }

  lemma AfterNothing<T>(o: Outcome<T>)
    ensures After([], o) == o
  {
    assert [] + o.2 == o.2;
  }

  lemma AfterAfter<T>(a: seq<string>, b: seq<string>, o: Outcome<T>)
    ensures After(a, After(b, o)) == After(a + b, o)
  {
    assert a + (b + o.2) == (a + b) + o.2;
  }

  lemma AppendSuffix(b0: seq<string>, h: seq<string>, h': seq<string>)
    requires |b0| <= |h| && h[..|b0|] == b0
    requires |h| <= |h'| && h'[..|h|] == h
    ensures |b0| <= |h'| && h'[..|b0|] == b0
    ensures h'[|b0|..] == h[|b0|..] + h'[|h|..]
  {
    assert h'[..|b0|] == h'[..|h|][..|b0|];
  }

  /** A claimable descriptor whose dependencies all returned is built and the package loop goes on. */
  lemma SpecificFromClaim(table: seq<Descriptor>, fuel: nat, name: string, i: nat, found: bool, h: seq<string>)
    requires fuel > 0 && i < |table| && Claimable(table[i], name)
    requires Deps(table, fuel, i, 0).0.Ok?
    ensures var d := Deps(table, fuel, i, 0);
      After(h, SpecificFrom(table, fuel, name, i, found)) ==
      After(h + d.2 + [table[i].key], SpecificFrom(d.1, fuel, name, i + 1, true))
  {
    var d := Deps(table, fuel, i, 0);
    AfterAfter(h, d.2 + [table[i].key], SpecificFrom(d.1, fuel, name, i + 1, true));
    assert h + (d.2 + [table[i].key]) == h + d.2 + [table[i].key];
  }

  /** The inner loop's `break` index is the first claimable descriptor. */
  lemma BuildNameAt(table: seq<Descriptor>, name: string, j: nat)
    requires j <= |table| && (forall i :: 0 <= i < j ==> !Claimable(table[i], name))
    requires j < |table| ==> Claimable(table[j], name)
    ensures BuildName(table, name) ==
      if j < |table| then (table[j := table[j].(visited := true)], [table[j].key]) else (table, [])
  {
  }

  lemma BuildInOrderLast(table: seq<Descriptor>, order: seq<string>, k: nat)
    requires k < |order|
    ensures var p := BuildInOrder(table, order[..k]); var s := BuildName(p.0, order[k]);
      BuildInOrder(table, order[..k + 1]) == (s.0, p.1 + s.1)
  {
    assert order[..k + 1][..k] == order[..k];
  }

  lemma SameEntriesKeys(a: seq<Descriptor>, b: seq<Descriptor>)
    requires SameEntries(a, b) && KeysDistinct(a)
    ensures KeysDistinct(b)
  {
  }

  // ---------------------------------------------------------------------------------------------
  // The class
  // ---------------------------------------------------------------------------------------------

  /** The state of `PackageBuilder` these drivers use: `self.packages`, and the keys `build_package` has been
      called with. */
  class PackageBuilder {
    var packages: seq<Descriptor>
    var built: seq<string>

    ghost predicate Valid()
      reads this
    {
      KeysDistinct(packages)
    }

    /** `self.packages = {}`; the root check and chroot creation are not modelled. */
    constructor ()
      ensures Valid() && packages == [] && built == []
    {
      packages := [];
      built := [];
    }

    /** `load_packages` over the `debian` directories of the walk. */
    method LoadPackages(dirs: seq<DebianDir>) returns (r: Result<()>)
      requires Valid()
      modifies this
      ensures Valid()
      ensures (r, packages) == LoadSpec(old(packages), dirs)
      ensures built == old(built)
    {
      var i := 0;
      while i < |dirs|
        invariant 0 <= i <= |dirs|
        invariant Valid()
        invariant LoadSpec(packages, dirs[i..]) == LoadSpec(old(packages), dirs)
        invariant built == old(built)
      {
        var c := GetPackagesFromControl(dirs[i].1);
        assert dirs[i..][0] == dirs[i] && dirs[i..][1..] == dirs[i + 1..];
        match c {
          case Err(e) =>
            return Err(e);
          case Ok(Missing) =>
            return Err(UnpackError);
          case Ok(Parsed(names, deps)) =>
            packages := PutDescriptor(packages, Descriptor(dirs[i].0, names, deps, false));
        }
        i := i + 1;
      }
      return Ok(());
    }

    /** The inner loop of `build_all_packages`: the index it breaks at, or the table's length. */
    method FindClaimable(name: string) returns (j: nat)
      ensures j <= |packages|
      ensures j < |packages| ==> Claimable(packages[j], name)
      ensures forall i :: 0 <= i < j ==> !Claimable(packages[i], name)
    {
      j := 0;
      while j < |packages|
        invariant 0 <= j <= |packages|
        invariant forall i :: 0 <= i < j ==> !Claimable(packages[i], name)
      {
        if !packages[j].visited && name in packages[j].packages {
          break;
        }
        j := j + 1;
      }
    }

    /** `build_all_packages`. */
    method BuildAllPackages() returns (r: Result<()>)
      requires Valid()
      modifies this
      ensures Valid()
      ensures var s := BuildAllSpec(old(packages)); r == s.0 && packages == s.1 && built == old(built) + s.2
    {
      var sorted := DetectCycle(packages);
      if sorted.Err? {
        return Err(sorted.error);
      }
      if sorted.value.None? {
        return Err(TypeError);
      }
      ghost var t0 := packages;
      BuildEach(sorted.value.value);
      BuildInOrderOnce(t0, sorted.value.value);
      SameEntriesKeys(t0, packages);
      return Ok(());
    }

    /** The outer loop of `build_all_packages` over `sorted_order`. */
    method BuildEach(order: seq<string>)
      modifies this
      ensures var b := BuildInOrder(old(packages), order); packages == b.0 && built == old(built) + b.1
    {
      ghost var t0 := packages;
      ghost var b0 := built;
      var k := 0;
      while k < |order|
        invariant 0 <= k <= |order|
        invariant packages == BuildInOrder(t0, order[..k]).0
        invariant built == b0 + BuildInOrder(t0, order[..k]).1
      {
        var pkg := order[k];
        var j := FindClaimable(pkg);
        BuildNameAt(packages, pkg, j);
        if j < |packages| {
          built := built + [packages[j].key];
          packages := packages[j := packages[j].(visited := true)];
        }
        BuildInOrderLast(t0, order, k);
        k := k + 1;
      }
      assert order[..k] == order;
    }

    /** `build_specific_package(name)` with `fuel` levels of recursion left. */
    method BuildSpecificPackage(name: string, fuel: nat) returns (r: Result<Returned>)
      modifies this
      ensures var s := Specific(old(packages), fuel, name); r == s.0 && packages == s.1 && built == old(built) + s.2
      decreases fuel, 1
    {
      if fuel == 0 {
        return Err(RecursionError);
      }
      ghost var b0 := built;
      ghost var goal := Specific(packages, fuel, name);
      var found := false;
      var i := 0;
      assert built[|b0|..] == [];
      AfterNothing(SpecificFrom(packages, fuel, name, 0, false));
      while i < |packages|
        invariant 0 <= i <= |packages|
        invariant |b0| <= |built| && built[..|b0|] == b0
        invariant goal == After(built[|b0|..], SpecificFrom(packages, fuel, name, i, found))
      {
        if !packages[i].visited && name in packages[i].packages {
          ghost var p0 := packages;
          ghost var h0 := built;
          var e := BuildDependencies(i, fuel);
          AppendSuffix(b0, h0, built);
          if e.Err? {
            assert built == b0 + built[|b0|..];
            return Err(e.error);
          }
          ghost var h1 := built;
          built := built + [packages[i].key];
          AppendSuffix(b0, h1, built);
          SpecificFromClaim(p0, fuel, name, i, found, h0[|b0|..]);
          found := true;
        }
        i := i + 1;
      }
      assert built == b0 + built[|b0|..];
      if !found {
        return Ok(ReturnedFalse);
      }
      return Ok(ReturnedNone);
    }

    /** The dependency loop of `build_specific_package` for descriptor `i`: build each dependency
        recursively, marking the descriptor visited after each one that returns. */
    method BuildDependencies(i: nat, fuel: nat) returns (e: Result<()>)
      requires fuel > 0 && i < |packages|
      modifies this
      ensures var d := Deps(old(packages), fuel, i, 0); e == d.0 && packages == d.1 && built == old(built) + d.2
      decreases fuel, 0
    {
      ghost var p0 := packages;
      ghost var b0 := built;
      var deps := packages[i].dependencies;
      var j := 0;
      assert built[|b0|..] == [];
      AfterNothing(Deps(packages, fuel, i, 0));
      while j < |deps|
        invariant 0 <= j <= |deps| && i < |packages|
        invariant packages[i].dependencies == deps
        invariant |b0| <= |built| && built[..|b0|] == b0
        invariant Deps(p0, fuel, i, 0) == After(built[|b0|..], Deps(packages, fuel, i, j))
      {
        ghost var h0 := built;
        ghost var t := packages;
        var r := BuildSpecificPackage(deps[j], fuel - 1);
        AppendSuffix(b0, h0, built);
        if r.Err? {
          assert built == b0 + built[|b0|..];
          return Err(r.error);
        }
        packages := packages[i := packages[i].(visited := true)];
        AfterAfter(h0[|b0|..], built[|h0|..], Deps(packages, fuel, i, j + 1));
        j := j + 1;
      }
      assert built == b0 + built[|b0|..];
      return Ok(());
    }

    /** `build_specific_package` returning `True` when the package was found, as its docstring says. */
    method BuildSpecificPackageFixed(name: string, fuel: nat) returns (r: Result<bool>)
      modifies this
      ensures r == SpecificFixed(old(packages), fuel, name)
      ensures var s := Specific(old(packages), fuel, name); packages == s.1 && built == old(built) + s.2
    {
      var e := BuildSpecificPackage(name, fuel);
      match e {
        case Err(err) => r := Err(err);
        case Ok(ReturnedFalse) => r := Ok(false);
        case Ok(ReturnedNone) => r := Ok(true);
      }
    }
  }
}
