# qcom-build-utils: a Dafny model of the build, ABI-check and manifest logic

This project models the deterministic core of the qcom-build-utils scripts. These scripts build Debian packages
for Qualcomm Linux images, check their ABI against a package archive and assemble the package lists of an
image. The model covers these parts:

- **Package builder** (`ubuntu/build_deb.py`): the `control` file reader, the descriptor table, Kahn's
  topological sort with its forced-vertex recovery, and the two build drivers. Building a package with
  `sbuild` is an abstract step that appends the descriptor key to a trace.
- **ABI verdict engine** (`scripts/deb_abi_checker.py`): Debian version reduction, the semantic-versioning
  verdict table, the decoding of the `abipkgdiff` exit status, escalation on changed functions, companion
  package remarks, and the OR-aggregation of return codes over packages and repositories. Python's
  arbitrary-precision `|` is modelled bit by bit (module `PyInt`).
- **File and manifest utilities:**
  - package bucketing and naming (`scripts/ppa_organizer.py`);
  - the `.dsc` `Files:` reader (`ubuntu/read_dsc.py`);
  - the path-to-ship-category map (`ubuntu/deb_organize.py`);
  - `.changes` parsing and tarball naming (`scripts/create_data_tar.py`);
  - the `.manifest` reader, the line-append helper and the wget selection (`ubuntu/helpers.py`);
  - manifest precedence and the package list of an image (`ubuntu/pack_deb.py`);
  - the XML-to-dict conversion and `project_info.txt` writer (`ubuntu/generate_project_info_from_manifest.py`).

Support modules:

- `Wrappers`: `Option` and `Result`.
- `Collections`: lists, filters, de-duplication and insertion-ordered dictionaries.
- `Text`: Python string operations such as `strip`, `split`, `replace`, `splitlines` and `readlines`.

Where the source mutates state, the model does too: `Builder.PackageBuilder`, `AbiChecker.Checker`,
`Helpers.TextFile` and `PackDeb.PackagePacker` are classes whose methods update fields. The loops of the source
are methods with loop invariants, proved equal to specification functions. The properties are lemmas about
those functions.

The model follows the code where the code and its documentation disagree:

- A two-cycle in the dependency graph sorts to `[x, y, x]` rather than failing.
- `build_specific_package` marks the dependent visited after each of its dependencies, not the dependency
  before building it.
- `build_specific_package` returns `None` after building, although its docstring promises `True`.

## Model

| member | source | states |
|---|---|---|
| BuildDeb.GetPackagesFromControl | ubuntu/build_deb.py:106-156 | the line loop and the checks after it give exactly the reader's outcome: `Missing` for an absent file, `IndexError` for an entry without a token, an exit for no `Package:` line, else the names and dependencies |
| BuildDeb.ScanNames | ubuntu/build_deb.py:133-134 | the package names are the trimmed values of the `Package:` lines in file order, whatever the dependency block does |
| BuildDeb.NoPackageValues | ubuntu/build_deb.py:133-134 | there are no names exactly when no line starts with `Package:` |
| BuildDeb.DepLinesOrigin | ubuntu/build_deb.py:136-143 | every collected dependency line is the non-empty value of a `Build-Depends:` line or a non-blank indented line, stripped |
| BuildDeb.BlockEnds | ubuntu/build_deb.py:145-146 | a line that is neither a `Package:` line nor indented closes an open block and adds nothing |
| BuildDeb.PackageLineKeepsBlock | ubuntu/build_deb.py:133-134 | a `Package:` line neither opens nor closes a dependency block, because its `elif` is tested first |
| BuildDeb.ContinuationGrowsBlock | ubuntu/build_deb.py:141-143 | inside a block an indented line adds its stripped text unless it is blank |
| BuildDeb.ControlExits | ubuntu/build_deb.py:148-154 | the process exits exactly when the file exists, every entry has a token and no line starts with `Package:` |
| BuildDeb.DependenciesError | ubuntu/build_deb.py:148-150 | the dependency reduction can fail only with `IndexError` |
| BuildDeb.ControlParsed | ubuntu/build_deb.py:148-156 | a parsed file declares at least one package; the names are the `Package:` values; each dependency is a whitespace-free first token |
| BuildDeb.ControlErrors | ubuntu/build_deb.py:122-123 | a missing file gives `Missing`; an entry without a token raises before the missing-package check |
| BuildDeb.FirstTokens | ubuntu/build_deb.py:150 | each entry gives its first whitespace token, or `IndexError` at the first entry without one |
| BuildDeb.PutHasKeys | ubuntu/build_deb.py:98-104 | storing a descriptor keeps one entry per key, replacing the old one in place or appending a new key |
| BuildOrder.EdgesOfMembers | ubuntu/build_deb.py:177-184 | there is an edge dependency→binary exactly for each binary and each dependency of one descriptor |
| BuildOrder.VerticesMembers | ubuntu/build_deb.py:172-182 | the vertices are every produced name plus every dependency of a descriptor that produces a name |
| BuildOrder.EdgesJoinVertices | ubuntu/build_deb.py:172-184 | every edge joins two vertices and ends at a binary |
| BuildOrder.GraphRunState | ubuntu/build_deb.py:172-184 | the two maps built hold, for exactly the vertices, the successors and the number of incoming edges |
| BuildOrder.InitVertices | ubuntu/build_deb.py:172-175 | the first loop gives every binary in-degree 0 and no successors |
| BuildOrder.AddEdges | ubuntu/build_deb.py:177-184 | the second loop leaves `graph` and `in_degree` equal to the edge tables of all edges |
| BuildOrder.RelaxMethod | ubuntu/build_deb.py:196-199 | relaxing the successors of a vertex agrees with the specification `Relax` |
| BuildOrder.RelaxMeasure | ubuntu/build_deb.py:193-199 | relaxing trades positive in-degrees for queue entries one for one, which bounds the loop |
| BuildOrder.DetectCycle | ubuntu/build_deb.py:158-220 | the method returns what `DetectCycleSpec` gives: the order, `None` for a cycle, or the `ValueError` of `min` on an empty map |
| BuildOrder.KahnDone | ubuntu/build_deb.py:201-220 | on the normal path no positive in-degree is left exactly when the output is a topological order of all vertices; otherwise no topological order exists |
| BuildOrder.KahnStuck | ubuntu/build_deb.py:201 | in a finished run a vertex keeps a positive in-degree exactly when it was never output |
| BuildOrder.StuckHasBackEdge | ubuntu/build_deb.py:201-216 | when a vertex stays unprocessed, every ordering of the vertices has a back edge |
| BuildOrder.RootOrBackEdge | ubuntu/build_deb.py:186-191 | either some vertex has in-degree 0, or any listing of the vertices has a back edge |
| BuildOrder.DetectCycleEdgeCases | ubuntu/build_deb.py:171-191 | an empty table sorts to `[]`; a table with no vertex reaches `min` on an empty map and raises |
| BuildOrder.DetectCycleWithRoot | ubuntu/build_deb.py:186-220 | with a vertex of in-degree 0, the result is a topological order of all vertices when one exists and `None` exactly when none does |
| BuildOrder.DetectCycleAcyclic | ubuntu/build_deb.py:186-220 | an acyclic dependency graph with at least one vertex is sorted topologically |
| BuildOrder.DetectCycleLength | ubuntu/build_deb.py:187-199 | a returned order lists only vertices, with at most one entry more than there are vertices (the forced vertex twice) |
| BuildOrder.NoRootNoOrder | ubuntu/build_deb.py:187-191 | without a vertex of in-degree 0 no topological order exists |
| BuildOrder.TwoCycleExample | ubuntu/build_deb.py:187-216 | two sources that build-depend on each other's binary sort to `[x, y, x]`, not `None` |
| BuildOrder.ZeroInDegree | ubuntu/build_deb.py:186 | the initial queue is the vertices of in-degree 0 in map order |
| BuildOrder.FirstMinimum | ubuntu/build_deb.py:189 | `min(in_degree, key=in_degree.get)` is the first key of minimal in-degree |
| Builder.LoadSpec | ubuntu/build_deb.py:90-104 | loading keeps one descriptor per key, stopping at the first directory whose control file does not yield a descriptor |
| Builder.LoadFails | ubuntu/build_deb.py:90-104 | loading fails exactly when some directory's control file does not yield a pair (a missing file or an exit) |
| Builder.LoadStores | ubuntu/build_deb.py:98-104 | after a load every directory has its descriptor, unvisited, holding what its control file lists; every other key is unchanged |
| Builder.PackageBuilder.LoadPackages | ubuntu/build_deb.py:90-104 | the method leaves the table and outcome `LoadSpec` gives |
| Builder.BuildInOrderOnce | ubuntu/build_deb.py:307-316 | each descriptor is built at most once, only if unvisited at the start, and exactly the built ones end up visited |
| Builder.BuildInOrderSound | ubuntu/build_deb.py:311-314 | whatever is built produces some name of the order |
| Builder.BuildInOrderComplete | ubuntu/build_deb.py:309-316 | with unique producers every unvisited descriptor producing a name of the order is built |
| Builder.BuiltBefore | ubuntu/build_deb.py:309-316 | a descriptor producing an earlier name of the order is built before one producing only later names |
| Builder.BuildAllDependencyFirst | ubuntu/build_deb.py:307-316 | over a topological order with unique producers, the producer of a dependency is built before its dependent |
| Builder.BuildAllCycle | ubuntu/build_deb.py:308-309 | with a root vertex, `build_all_packages` fails exactly when no topological order exists, raising `TypeError` before any build |
| Builder.BuildAllBuildsEach | ubuntu/build_deb.py:307-316 | with a root and unique producers, every unvisited descriptor that produces something is built exactly once |
| Builder.PackageBuilder.BuildAllPackages | ubuntu/build_deb.py:307-316 | the method's table, trace and outcome are those of `BuildAllSpec` |
| Builder.PackageBuilder.FindClaimable | ubuntu/build_deb.py:310-316 | the inner loop breaks at the first unvisited descriptor producing the name |
| Builder.PackageBuilder.BuildEach | ubuntu/build_deb.py:309-316 | the outer loop leaves the table and trace of `BuildInOrder` over the order |
| Builder.PackageBuilder.constructor | ubuntu/build_deb.py:54 | a new builder has an empty descriptor table and has built nothing |
| Builder.Specific | ubuntu/build_deb.py:318-343 | `build_specific_package` with a recursion budget changes only visited flags: every descriptor keeps its key, names and dependencies |
| Builder.SpecificNotFound | ubuntu/build_deb.py:331-343 | with recursion left, the call returns `False` exactly when no unvisited descriptor produces the name, and then it changes nothing |
| Builder.FoundStays | ubuntu/build_deb.py:337-338 | once a descriptor is found the call can no longer return `False` |
| Builder.SpecificKeepsFlag | ubuntu/build_deb.py:334-337 | a descriptor without dependencies is never marked visited |
| Builder.SpecificBuildsEach | ubuntu/build_deb.py:330-338 | a call that returns has built every descriptor that produced the name and was unvisited when it began; no flag is cleared, and every descriptor it marks visited is built during it |
| Builder.SpecificFromBuildsEach | ubuntu/build_deb.py:331-338 | the package loop from a position on builds every descriptor from there that was claimable when the loop got there |
| Builder.DepsBuildsEach | ubuntu/build_deb.py:334-336 | the dependency loop resumed at a dependency builds every descriptor claimable for it at that recursive call, and marks visited without building only its own descriptor |
| Builder.ClaimBuildsDependenciesFirst | ubuntu/build_deb.py:333-338 | a claimed descriptor's key follows the builds of its dependency loop, which include every descriptor claimable for its first dependency |
| Builder.ClosedRecursion | ubuntu/build_deb.py:331-336 | when the first unvisited producer of every name of a set has its first dependency in the set, asking for any of them raises `RecursionError` for every recursion limit and changes nothing |
| Builder.DepsFirstRaises | ubuntu/build_deb.py:334-335 | an exception in the first recursion ends the dependency loop with that exception |
| Builder.CycleRecursion | ubuntu/build_deb.py:334-336 | example: two sources build-depending on each other's binary raise `RecursionError` for every recursion limit |
| Builder.ChainExample | ubuntu/build_deb.py:331-343 | `a` build-depending on `b`: `b` is built first, only `a` is marked visited, and the call returns `None` |
| Builder.PackageBuilder.BuildSpecificPackage | ubuntu/build_deb.py:318-343 | the method's table, trace and outcome are those of `Specific` |
| Builder.PackageBuilder.BuildDependencies | ubuntu/build_deb.py:334-337 | the dependency loop gives the outcome, table and trace of `Deps`: each dependency recursively, the descriptor marked visited after each |
| Builder.CallerAlwaysRaises | ubuntu/build.py:221-223 | as written, the caller raises after every request, even one that built the package |
| Builder.FixedCallerAccepts | ubuntu/build_deb.py:328-329 | with the documented `True`, the caller goes on exactly when some unvisited descriptor produced the name and nothing raised |
| Builder.PackageBuilder.BuildSpecificPackageFixed | ubuntu/build_deb.py:318-343 | the corrected method returns what `SpecificFixed` gives |
| AbiChecker.ExtractUpstreamVersion | scripts/deb_abi_checker.py:702-704 | the leading `major.minor.patch` when the input starts with one, else the input unchanged |
| AbiChecker.ExtractedPattern | scripts/deb_abi_checker.py:715-730 | after extraction the version pattern accepts exactly the inputs that start with `major.minor.patch` |
| AbiChecker.ExtractIdempotent | scripts/deb_abi_checker.py:702-704 | extraction is idempotent |
| AbiChecker.ExtractDropsRevision | scripts/deb_abi_checker.py:702-704 | a version `x.y.z-r` keeps only `x.y.z` |
| AbiChecker.ExtractTwoParts | scripts/deb_abi_checker.py:702-704 | a two-part version such as `2.0` is returned unchanged |
| AbiChecker.IntsOf | scripts/deb_abi_checker.py:684-685 | `list(map(int, parts))` gives one number per part when it succeeds |
| AbiChecker.BumpedOnTriples | scripts/deb_abi_checker.py:665-699 | on dotted digit triples `version_bumped` compares the decimal values of the chosen component with `>` |
| AbiChecker.ComponentsBumped | scripts/deb_abi_checker.py:665-699 | on two versions starting with `major.minor.patch` each comparison succeeds and compares that component's decimal value |
| AbiChecker.DottedParts | scripts/deb_abi_checker.py:703 | a dotted digit triple followed by a non-digit is read back as that triple |
| AbiChecker.IndexOfName | scripts/deb_abi_checker.py:676-693 | a component name selects one of the three parts |
| AbiChecker.VerdictPolicy | scripts/deb_abi_checker.py:753-819 | a verdict passes exactly when semantic versioning (items 6-8 of SemVer 2.0.0) allows the bump; every verdict is a pass or a fail |
| AbiChecker.AnalyzeRejects | scripts/deb_abi_checker.py:726-747 | the analysis raises for a malformed version, an error bit, or an incompatible bit without the change bit |
| AbiChecker.AnalyzeAccepts | scripts/deb_abi_checker.py:749-821 | otherwise it gives the table's verdict on the numeric components |
| AbiChecker.AnalyzeSpec | scripts/deb_abi_checker.py:707-821 | the analysis raises exactly in the cases above and otherwise returns the verdict |
| AbiChecker.AnalyzePolicy | scripts/deb_abi_checker.py:753-821 | a verdict of the analysis passes exactly when the release policy allows the bump |
| AbiChecker.AnalyzeTriples | scripts/deb_abi_checker.py:707-821 | on two well-formed triples and a consistent status the verdict is the table's |
| AbiChecker.IndependentComponents | scripts/deb_abi_checker.py:749-751 | components are judged one by one, so 2.0.0 to 1.5.0 with a compatible change passes as a minor bump |
| AbiChecker.SummaryRoundTrip | scripts/deb_abi_checker.py:549-551 | a summary line written with digit strings is read back as its changed-function count |
| AbiChecker.ClassifySpec | scripts/deb_abi_checker.py:517-576 | 0 is NO-DIFF; bit 0 raises; bit 1 is STRIPPED-PACKAGE with 4; bit 2 is COMPATIBLE-DIFF with 1 unless escalated; bit 3 is INCOMPATIBLE-DIFF with 2; no low bit gives 0 and no label |
| AbiChecker.ClassifiedStatus | scripts/deb_abi_checker.py:549-602 | the status passed on keeps every bit and gains bit 3 exactly when the change escalates |
| AbiChecker.RemarkSpec | scripts/deb_abi_checker.py:580-595 | `NO-DEV-PACKAGE` exactly when a side lacks a `-dev` package, `NO-DBG-PACKAGE` exactly when one lacks a `.ddeb`, both joined by `, ` |
| AbiChecker.NameAndVersion | scripts/deb_abi_checker.py:288-299 | `name_version_arch.deb` has package name `name` and version `version` |
| AbiChecker.VersionField | scripts/deb_abi_checker.py:298-299 | the second `_` field of the name, or `IndexError` when there is none |
| AbiChecker.NewDevChoice | scripts/deb_abi_checker.py:338-361 | the new `-dev` package: none, the single candidate, an exact `<name>-dev` match among several, or ambiguity |
| AbiChecker.NewDdebChoice | scripts/deb_abi_checker.py:365-377 | the new debug package: none, the single candidate, or ambiguity |
| AbiChecker.SelectionFacts | scripts/deb_abi_checker.py:331-361 | the new side records the version and the companion names found, and stops with -1 on an ambiguous `-dev` |
| AbiChecker.AfterNewDevFacts | scripts/deb_abi_checker.py:365-443 | an ambiguous debug package returns 0, a failed apt update 16, a failed download 8, else the old side follows |
| AbiChecker.OldSideFacts | scripts/deb_abi_checker.py:466-500 | the old side records the old version and companion names and leaves the outcome fields untouched |
| AbiChecker.CompareFacts | scripts/deb_abi_checker.py:513-604 | the comparison writes only the outcome fields, as the classification, remark and analysis give them; the version check is written exactly when the status is classified, the directory removal does not raise and the analysis succeeds |
| AbiChecker.CompareRemoval | scripts/deb_abi_checker.py:580-602 | as written, removing the temporary directory raises `NameError` exactly on a classified status with `keep_temp` false, after the label and remark and before the version check |
| AbiChecker.AnalyzeRaises | scripts/deb_abi_checker.py:707-760 | the analysis raises only `ValueError` and `IndexError` |
| AbiChecker.BumpRaises | scripts/deb_abi_checker.py:665-699 | the version comparison raises only `ValueError` and `IndexError` |
| AbiChecker.IntsOfRaises | scripts/deb_abi_checker.py:684-685 | converting the components raises only `ValueError` |
| AbiChecker.PackageReturnCodes | scripts/deb_abi_checker.py:315-604 | a package run returns -1 or one of the documented `RETURN_*` codes; as written, with `keep_temp` false only -1, 0, 4, 8 or 16 |
| AbiChecker.AmbiguousCode | scripts/deb_abi_checker.py:348-361 | an ambiguous `-dev` package returns -1 |
| AbiChecker.UpdateCode | scripts/deb_abi_checker.py:433-435 | a failed apt update returns 16 |
| AbiChecker.DownloadCode | scripts/deb_abi_checker.py:437-443 | a failed core download returns 8 |
| AbiChecker.StrippedPackage | scripts/deb_abi_checker.py:538-542 | a stripped package returns 4 before the remark and version check are written |
| AbiChecker.ComparisonOutcome | scripts/deb_abi_checker.py:513-604 | a completed comparison records its label, return, remark and verdict, and it completes only when the directory removal does not raise |
| AbiChecker.CompatibilityCodes | scripts/deb_abi_checker.py:545-562 | returns 1 and 2 come only from a completed comparison, 2 exactly when the analysis saw an incompatible change |
| AbiChecker.TempRemovalRaises | scripts/deb_abi_checker.py:598-600 | as written, a run reaching a classified status raises `NameError` exactly when `keep_temp` is false, with the remark recorded and no version check |
| AbiChecker.TempRemovalFixed | scripts/deb_abi_checker.py:598-602 | removing the package's own directory never raises `NameError` and ends every run as keeping the directory does |
| AbiChecker.CompareCleanupFree | scripts/deb_abi_checker.py:598-602 | removing the package's own directory ends the comparison as keeping it does |
| AbiChecker.IncompatibleReturn | scripts/deb_abi_checker.py:549-562 | return 2 exactly when the status passed on is incompatible, which includes every escalation |
| AbiChecker.RepoCombine | scripts/deb_abi_checker.py:288-313 | the repository loop's result is the OR of its packages' returns, stopping at the first exception |
| AbiChecker.CombineOutcome | scripts/deb_abi_checker.py:311 | the OR succeeds exactly when each return does; a bit is set exactly when some return has it; it is negative exactly when some return is |
| AbiChecker.RepoOutcome | scripts/deb_abi_checker.py:280-313 | the repository result succeeds exactly when every package run does; a bit is set, or the result negative, exactly when some package return has it or is; an exception is the first one raised |
| AbiChecker.RepoMinusOne | scripts/deb_abi_checker.py:311 | an ambiguous `-dev` package anywhere makes the repository result -1 |
| AbiChecker.RepoRecords | scripts/deb_abi_checker.py:288-311 | after a successful loop every package has a record, none is dropped, and only package names are added |
| AbiChecker.RepoReturnIndependent | scripts/deb_abi_checker.py:213-313 | a repository's result does not depend on the records collected before it |
| AbiChecker.MultiCombine | scripts/deb_abi_checker.py:193-211 | the multi-repository loop ORs the directories' results, turning an exception into exit -1 |
| AbiChecker.MultiOutcome | scripts/deb_abi_checker.py:193-211 | an exception in any directory gives exit -1; otherwise a bit is set exactly when some directory's result has it |
| AbiChecker.Checker.SingleRepo | scripts/deb_abi_checker.py:213-313 | the method returns `RepoReturn` and stores the records of `RepoSpec` |
| AbiChecker.Checker.MultipleRepo | scripts/deb_abi_checker.py:164-211 | the method returns `MultiSpec` over the directory entries and stores its records |
| AbiChecker.Checker.constructor | scripts/deb_abi_checker.py:72 | the global result table starts empty |
| PyInt.BitOr | scripts/deb_abi_checker.py:311 | Python's bitwise or has exactly the bits set in either operand, negative numbers included |
| PyInt.OrUnits | scripts/deb_abi_checker.py:288-311 | 0 is neutral and -1 absorbing for bitwise or |
| PyInt.OrAllBits | scripts/deb_abi_checker.py:288-311 | the accumulated `final_ret` has a bit set exactly when some accumulated value has it |
| PyInt.OrAllSign | scripts/deb_abi_checker.py:288-311 | the accumulated value is negative exactly when some accumulated value is |
| PyInt.OrAllMinusOne | scripts/deb_abi_checker.py:311 | any -1 makes the whole accumulation -1 |
| PyInt.OrAllZeros | scripts/deb_abi_checker.py:288-311 | accumulating only zeros gives 0 |
| PpaOrganizer.KindsExclusive | scripts/ppa_organizer.py:85-88 | no file belongs to two of the four kinds |
| PpaOrganizer.BucketsNoDups | scripts/ppa_organizer.py:85-88 | a listing without duplicates puts each file in the four lists at most once |
| PpaOrganizer.Canonical | scripts/ppa_organizer.py:92-103 | the canonical name fails, with `IndexError`, exactly when the stem less its suffix is empty |
| PpaOrganizer.CanonicalPrefix | scripts/ppa_organizer.py:92-103 | a canonical name is a prefix of the file name without `_`: the de-suffixed stem less at most one trailing digit |
| PpaOrganizer.PackageNamesOk | scripts/ppa_organizer.py:92-105 | the names can be formed exactly when every file of every list leaves a name |
| PpaOrganizer.PackageNamesMembers | scripts/ppa_organizer.py:105-109 | the package names are exactly the canonical names of the files of the four lists, without duplicates |
| PpaOrganizer.DscNameListed | scripts/ppa_organizer.py:92-109 | the canonical name of every `.dsc` file is a package name |
| PpaOrganizer.SortLongestFirst | scripts/ppa_organizer.py:111 | a stable sort by length, longest first, that permutes the names |
| PpaOrganizer.ClaimFirst | scripts/ppa_organizer.py:123-126 | nothing is claimed exactly when no file contains the name, and otherwise the first file that does |
| PpaOrganizer.CopyAndRemove | scripts/ppa_organizer.py:133-155 | a claimed file is copied and removed from its list |
| PpaOrganizer.PlaceName | scripts/ppa_organizer.py:113-155 | one pass for a name agrees with the specification `Place` |
| PpaOrganizer.PlaceNames | scripts/ppa_organizer.py:113-155 | the loop over the names agrees with `PlaceAll`, stopping at the first exception |
| PpaOrganizer.Reorganize | scripts/ppa_organizer.py:78-155 | the method gives the outcome and copies of `ReorganizeSpec` |
| PpaOrganizer.AsWrittenPlaceAll | scripts/ppa_organizer.py:128-131 | as written the loop raises `ValueError` exactly when some name is contained in a `.dsc` file |
| PpaOrganizer.AsWrittenReorganize | scripts/ppa_organizer.py:128-131 | as written `reorganize` succeeds only on a listing without `.dsc` files |
| PpaOrganizer.AsWrittenPlace | scripts/ppa_organizer.py:123-131 | one pass as written raises `ValueError` exactly when a `.dsc` file contains the name, else leaves the `.dsc` list alone |
| PpaOrganizer.AsWrittenWithoutDsc | scripts/ppa_organizer.py:78-155 | without `.dsc` files as written and corrected agree |
| PpaOrganizer.FixedOutcome | scripts/ppa_organizer.py:113-155 | corrected, `reorganize` raises only where names cannot be formed, and otherwise makes one directory per name, longest first |
| PpaOrganizer.FixedPlaceAll | scripts/ppa_organizer.py:113-155 | corrected, the loop over any names never raises, makes one directory per name, keeps every file either listed or copied, and labels each copy |
| PpaOrganizer.FixedCopiesOnce | scripts/ppa_organizer.py:136-155 | corrected, each file of a duplicate-free listing is copied at most once, and nothing else is copied |
| PpaOrganizer.FixedLabels | scripts/ppa_organizer.py:123-155 | corrected, every copy goes to the directory of a package name that the copied file contains |
| ReadDsc.ParseLineSound | ubuntu/read_dsc.py:55-59 | a line gives an entry exactly when it is indented, splits into three fields and names a wanted file |
| ReadDsc.ExtractMd5sumFromFiles | ubuntu/read_dsc.py:15-66 | the line loop returns the entries of `Scan` |
| ReadDsc.ParseIndented | ubuntu/read_dsc.py:55-64 | one section line gives the entries of `ParseLine` |
| ReadDsc.ScanIsSection | ubuntu/read_dsc.py:43-66 | the loop returns exactly the entries of the `Files:` section's lines |
| ReadDsc.SectionBoundsSound | ubuntu/read_dsc.py:48-53 | the section starts after the first `Files:` line and runs to the first later line not starting with a space, or to the end |
| ReadDsc.EntrySound | ubuntu/read_dsc.py:56-59 | each entry is the split of an indented section line; its file name is the rest of the line after checksum and size, inner spaces kept |
| ReadDsc.NoFilesLine | ubuntu/read_dsc.py:43-66 | without a `Files:` line the result is empty |
| ReadDsc.IgnoresTail | ubuntu/read_dsc.py:52-53 | what follows the end of the section is never read |
| ReadDsc.IgnoresPreamble | ubuntu/read_dsc.py:48-50 | lines before the first `Files:` line never reach the result |
| DebOrganize.ParseRowFields | ubuntu/deb_organize.py:22-23 | a line gives a row exactly when its stripped text holds a tab; key and value are the stripped first two fields |
| DebOrganize.GenerateManifestMap | ubuntu/deb_organize.py:20-25 | the loop builds the map of `ReadMap` |
| DebOrganize.ReadRow | ubuntu/deb_organize.py:22-23 | one line gives its row as `ParseRow` reads it, `None` where `parts[1]` raises |
| DebOrganize.ReadMapOk | ubuntu/deb_organize.py:20-23 | reading succeeds exactly when every line has two tab-separated fields, and otherwise fails with `IndexError` |
| DebOrganize.BuildKeys | ubuntu/deb_organize.py:23 | the map's keys are the row keys in order of first occurrence |
| DebOrganize.BuildLatest | ubuntu/deb_organize.py:23 | a key maps to the value of the last row with that key |
| DebOrganize.ReadMapLatest | ubuntu/deb_organize.py:20-23 | a key maps to the value of the last line that reads as a row with it |
| DebOrganize.BuildFrom | ubuntu/deb_organize.py:23 | every key of the map is the key of some row |
| DebOrganize.SearchFalsy | ubuntu/deb_organize.py:28-39 | a falsy path finds nothing |
| DebOrganize.SearchExact | ubuntu/deb_organize.py:29-31 | a path that normalises to a key finds that key's value |
| DebOrganize.SearchFound | ubuntu/deb_organize.py:33-39 | otherwise something is found exactly when some key's components all occur among the path's |
| DebOrganize.SearchFirst | ubuntu/deb_organize.py:35-38 | and then it is the value of the first such key in map order |
| DebOrganize.SearchIsValue | ubuntu/deb_organize.py:27-39 | whatever is found is a value of the map |
| DebOrganize.LookupLatest | ubuntu/deb_organize.py:20-31 | on a map read from a file, a path normalising to a row key finds the last such row's value |
| CreateDataTar.FindAllNone | scripts/create_data_tar.py:85 | the raw pattern finds nothing in a text without a backslash |
| CreateDataTar.FindAllBackslash | scripts/create_data_tar.py:85 | every name the raw pattern captures holds a backslash |
| CreateDataTar.PatternExample | scripts/create_data_tar.py:85 | the pattern does match text written with literal backslashes |
| CreateDataTar.FallbackTokens | scripts/create_data_tar.py:86-92 | the nested fallback loops append the tokens of `Fallback` |
| CreateDataTar.AppendDebTokens | scripts/create_data_tar.py:90-92 | the tokens ending in `.deb` are appended in order |
| CreateDataTar.FallbackMembers | scripts/create_data_tar.py:87-92 | the fallback names are exactly the whitespace tokens ending in `.deb`, from every line |
| CreateDataTar.DebTokensAll | scripts/create_data_tar.py:89-91 | the `'.deb' in line` test drops no token that ends in `.deb` |
| CreateDataTar.CollectDebsFromChanges | scripts/create_data_tar.py:73-98 | the method returns `Collect` of the file: the names de-duplicated, or `RuntimeError` when there are none |
| CreateDataTar.CollectResult | scripts/create_data_tar.py:95-98 | the result is never empty, holds no duplicates and lists exactly the referenced names; with none referenced it is `RuntimeError` |
| CreateDataTar.FallbackDecides | scripts/create_data_tar.py:84-92 | without a backslash in the file the fallback alone decides |
| CreateDataTar.ExtractDebsToData | scripts/create_data_tar.py:101-136 | the method gives the result and the tool runs of `Extract` |
| CreateDataTar.ExtractResultIff | scripts/create_data_tar.py:110-136 | `True` exactly when some existing file was extracted and the tool was never missing |
| CreateDataTar.ExtractStopsIff | scripts/create_data_tar.py:126-129 | the loop returns early exactly when the tool is missing for some existing file |
| CreateDataTar.ExtractRuns | scripts/create_data_tar.py:110-129 | every run is of an existing file, in name order; missing files are skipped |
| CreateDataTar.ExtractAnyIff | scripts/create_data_tar.py:110-134 | without an early return, `extracted_any` is set exactly when some existing file was extracted |
| CreateDataTar.ExtractRunsAll | scripts/create_data_tar.py:110-129 | without a missing tool every existing file is run, in name order |
| CreateDataTar.PathsFor | scripts/create_data_tar.py:112-120 | a name gives its file under the work directory and the destination `JobOf` names |
| CreateDataTar.PackageDirOf | scripts/create_data_tar.py:118-119 | the package directory is the basename before its first `_`, or the stem |
| CreateDataTar.DestDirLayout | scripts/create_data_tar.py:118-120 | the destination is `<work_dir>/data/<pkg>/<arch>` |
| CreateDataTar.NewestIsFirstMax | scripts/create_data_tar.py:66-70 | the newest candidate is the first one with the greatest modification time |
| CreateDataTar.FindExplicit | scripts/create_data_tar.py:58-61 | an explicit path is used when it exists and raises `FileNotFoundError` otherwise |
| CreateDataTar.FindNewest | scripts/create_data_tar.py:62-70 | without an explicit path the newest candidate is used, and an empty directory raises |
| CreateDataTar.TarNameOf | scripts/create_data_tar.py:184-187 | a trailing `.changes` becomes `.tar.gz`; otherwise `.tar.gz` is appended |
| Helpers.TextFile.CheckAndAppendLine | ubuntu/helpers.py:37-67 | a missing file exits with status 1; otherwise `True` when a line equals the target after stripping; otherwise `"\n<line>\n"` is appended and `True` returned if appending is asked, else `False` with the file unchanged |
| Helpers.TextFile.constructor | ubuntu/helpers.py:51-56 | a file is present or absent with the given contents |
| Helpers.AfterCheckHasLine | ubuntu/helpers.py:58-67 | after a call that may append, the file holds the line, for a target without line feed or carriage return |
| Helpers.AfterCheckIdempotent | ubuntu/helpers.py:58-67 | a second call changes nothing more, for a target without line feed or carriage return |
| Helpers.EntryOf | ubuntu/helpers.py:80-86 | a line gives at most one entry |
| Helpers.ReadEntry | ubuntu/helpers.py:80-86 | one line gives the entry of `EntryOf` |
| Helpers.ReadVersionLine | ubuntu/helpers.py:431-435 | one manifest line gives the name and version `VersionLine` reads |
| Helpers.ParseDebsManifest | ubuntu/helpers.py:69-90 | `ValueError` when `Path.is_file` fails or the pathlib name does not end in `.manifest`; `None` when that test passes and `os.path.isfile` on the path as given fails; otherwise the entries of the kept lines |
| Helpers.EntryRoundTrip | ubuntu/helpers.py:80-86 | an entry written as `package<TAB>version` reads back as itself |
| Helpers.EntrySound | ubuntu/helpers.py:80-86 | each entry's package is a line's text before the first tab, non-empty and not a comment |
| Helpers.EntriesFromLines | ubuntu/helpers.py:79-87 | the entries are those of the kept lines, one each, in file order |
| Helpers.BuildVersionMap | ubuntu/helpers.py:425-436 | the loop builds `VersionMap` of the manifest text |
| Helpers.VersionMapLatest | ubuntu/helpers.py:429-436 | a name is in the map exactly when some line names it, at the version of the last such line |
| Helpers.VersionMapNames | ubuntu/helpers.py:431-436 | every name in the map is a non-empty whitespace-free field |
| Helpers.ChosenFor | ubuntu/helpers.py:441-446 | a prefix picks at most one name |
| Helpers.PullDebsWget | ubuntu/helpers.py:404-457 | the downloads made are `Downloads` of the picks; this list is what the model returns, while the function itself has no `return` and gives `None`, not the count its docstring promises |
| Helpers.FirstMatch | ubuntu/helpers.py:442-446 | one prefix picks `SelectFor` of the map's names |
| Helpers.PickDownload | ubuntu/helpers.py:442-457 | one prefix gives the download of its first matching name, if any |
| Helpers.ChosenFrom | ubuntu/helpers.py:441-457 | each pick is the first name starting with one of the prefixes, at its mapped version |
| Helpers.ChosenCount | ubuntu/helpers.py:441-447 | at most one pick per prefix, and none for a prefix no name starts with |
| Helpers.DownloadShape | ubuntu/helpers.py:448-457 | the URL is `<base>/<first letter>/<name>/<name>_<version>_arm64.deb`, saved under `<out_dir>/<name>/` |
| PackDeb.PiecesFrom | ubuntu/pack_deb.py:124-134 | a merge copies a text exactly when a file named `<image_type>.manifest`, not empty, in a directory the filter keeps, holds it |
| PackDeb.MergedEntries | ubuntu/pack_deb.py:112-141 | when each copied manifest ends with a newline, the merged manifest holds the entries of each, in walk order |
| PackDeb.MergedReadable | ubuntu/pack_deb.py:118-141 | the merged manifest always reads without `ValueError`; a non-directory folder gives `None` |
| PackDeb.PackagePacker.MergeManifestsFromFolder | ubuntu/pack_deb.py:112-141 | the method's result and disk are those of `Merge` |
| PackDeb.PackagePacker.ReadWalk | ubuntu/pack_deb.py:124-134 | the texts copied during the walk, concatenated |
| PackDeb.ReadManifestNone | ubuntu/helpers.py:74-90 | against the disk, a parse gives `None` exactly for a manifest file named with a trailing `/` or `/.`, fails only with `ValueError` and exactly when pathlib's path is no file or its name no `.manifest`, and never gives `None` for a path ending otherwise |
| PackDeb.TrailingSlashExample | ubuntu/helpers.py:74-90 | example: `x.manifest/` and `x.manifest/.` for a file `x.manifest` pass line 75 and read as `None` |
| PackDeb.ExplicitAlone | ubuntu/pack_deb.py:152-155 | an explicit manifest is read alone: only the file pathlib names matters, and the disk is unchanged |
| PackDeb.QcomOnlyForQcom | ubuntu/pack_deb.py:166-183 | qcom manifests are read only for the `qcom` variant |
| PackDeb.FolderOrder | ubuntu/pack_deb.py:157-188 | with a folder, the packages are the defaults, then the merged base manifests, then for `qcom` the merged qcom ones; a `DEBS` of `None` raises `AttributeError` at the first `extend` |
| PackDeb.DefaultsErrors | ubuntu/pack_deb.py:157-172 | a default manifest fails to read only with `ValueError` and never reads as `None`; the only other failure is `AttributeError` when `DEBS` was already `None`; a list stays a list |
| PackDeb.AsWrittenAlwaysExits | ubuntu/pack_deb.py:157-192 | as written, without an explicit manifest and without `qc_folder`, the call always reaches `exit(1)` |
| PackDeb.AsWrittenExample | ubuntu/pack_deb.py:157-192 | a base manifest that reads without error still ends in `exit(1)` |
| PackDeb.FixedExitsOnlyWithoutManifest | ubuntu/pack_deb.py:157-192 | corrected, without an explicit manifest and without `qc_folder` the call fails exactly when a default manifest fails to read or none exists, and otherwise returns the defaults |
| PackDeb.PackagePacker.ParseManifests | ubuntu/pack_deb.py:145-192 | the method's outcome and `DEBS` are those of `Manifests`, so an explicit path that reads as `None` sets `DEBS` to `None` and returns normally; a given manifest path clears the QCOM field and keeps the base field; otherwise the base field names the default base manifest and, on success, the QCOM field names the default QCOM manifest for the `qcom` variant and is cleared otherwise |
| PackDeb.PackagePacker.LoadFolder | ubuntu/pack_deb.py:175-188 | the method appends the merged manifests, or raises, as `FromFolder` says |
| PackDeb.PackagePacker.LoadDefaults | ubuntu/pack_deb.py:157-172 | the defaults step leaves the disk alone, records the base manifest, and sets `DEBS` to what `DefaultsFrom` reads, or fails as it does |
| PackDeb.PackagePacker.LoadMerged | ubuntu/pack_deb.py:176-183 | one merge step writes the disk `Merge` gives and appends the entries of the copied manifests when a file was produced; it raises `AttributeError` exactly when a file was produced and `DEBS` is `None` |
| PackDeb.PackagePacker.ReadDir | ubuntu/pack_deb.py:127-134 | one directory contributes the texts of its matching manifests |
| PackDeb.PackagePacker.Read | ubuntu/helpers.py:69-90 | reading a manifest on the current disk gives `ReadManifest`: `Path.is_file` on the path pathlib prints, `os.path.isfile` on the path as given |
| PackDeb.PackagePacker.DefaultPath | ubuntu/pack_deb.py:157-168 | the default manifest path of a kind |
| PackDeb.PackagePacker.constructor | ubuntu/pack_deb.py:55-75 | a new packer has its configuration and disk, an empty `DEBS` list and no manifests |
| PackDeb.DebSpecRoundTrip | ubuntu/pack_deb.py:203 | a versioned entry's `package=version` splits back into the stripped name and version |
| PackDeb.PackagePacker.GetDebList | ubuntu/pack_deb.py:194-208 | a `DEBS` of `None` raises `TypeError`; otherwise the result is a comma-joined duplicate-free list holding exactly the entries' specs and `ca-certificates` |
| ProjectInfo.GroupLookup | ubuntu/generate_project_info_from_manifest.py:49-54 | a tag holds the list of the values of its children with that tag, in child order |
| ProjectInfo.UpdateLookup | ubuntu/generate_project_info_from_manifest.py:57-58 | attributes are merged into the dict and override child entries of the same name |
| ProjectInfo.ValueOfLeaf | ubuntu/generate_project_info_from_manifest.py:46-64 | a node without children or attributes maps to `None`, or to its stripped text when it has text |
| ProjectInfo.ValueOfStructured | ubuntu/generate_project_info_from_manifest.py:46-63 | a node with children or attributes maps to a dict: `#text` holds the stripped text, an attribute its value, a tag seen once its child's value and a tag seen more often the list |
| ProjectInfo.EtreeToDict | ubuntu/generate_project_info_from_manifest.py:34-64 | the recursive method with its loops returns `DictOf(n)` |
| ProjectInfo.GroupChildren | ubuntu/generate_project_info_from_manifest.py:49-53 | the loop over the converted children builds `Group` |
| ProjectInfo.UpdateAttributes | ubuntu/generate_project_info_from_manifest.py:57-58 | the attributes set one by one give `Update` |
| ProjectInfo.Ship | ubuntu/generate_project_info_from_manifest.py:83-87 | the ship category is always `oss` or `prop` |
| ProjectInfo.WriteToFile | ubuntu/generate_project_info_from_manifest.py:67-89 | the output path defaults to `<workspace>/project_info.txt`; the text is one `path<TAB>ship` line per project |
| ProjectInfo.ProjectInfoReadBack | ubuntu/generate_project_info_from_manifest.py:81-88 | reading the written file with the parser of `ubuntu/deb_organize.py` gives one row per project, its path and ship category, without `IndexError` |
| ProjectInfo.ProjectInfoLatest | ubuntu/generate_project_info_from_manifest.py:81-88 | in the read-back map a path holds the ship category of its last project |
| ProjectInfo.CompTagFirst | ubuntu/generate_project_info_from_manifest.py:150-153 | a tag is found exactly when some project of the group has a non-empty tag, and it is the first such project's |
| ProjectInfo.GetCompTagForGroups | ubuntu/generate_project_info_from_manifest.py:137-153 | the loop returns `CompTag` |
| ProjectInfo.TagWithoutPrefix | ubuntu/generate_project_info_from_manifest.py:153 | `refs/tags/<name>` yields `<name>` |
| ProjectInfo.CreateForManifestMap | ubuntu/deb_organize.py:13-23 | the call `generate_manifest_map` makes writes its output path, one line per project, and the map reads back |

## Left out

- Process execution is not modelled. This covers `sbuild`, schroot creation, `dpkg -x`, `abipkgdiff`,
  `apt-get`, `wget`, `mmdebstrap`, grub and EFI. `abipkgdiff`, `apt-get` and the downloads are parameters:
  an exit status, a report text, a download outcome. `sbuild` and `dpkg -x` are assumed to succeed, so the
  exceptions they raise on failure are not modelled:
  - `sbuild` through `run_command` (ubuntu/helpers.py:114-122, called at ubuntu/build_deb.py:300) is an
    entry in the build trace;
  - the `check=True` runs of `dpkg -x` in `extract_deb` (scripts/deb_abi_checker.py:606-622) are not
    modelled.
- File system access is a parameter, not I/O:
  - `os.walk` listings are sequences of directories;
  - files are a map from path to text;
  - `os.path.exists`, `isdir` and writability are flags or set membership.
  - Paths are compared as spelt. The one exception is the trailing `/` and `/.` that pathlib drops
    (`Helpers.StripDirMarks`). Repeated `/`, inner `.` components and symbolic links are not resolved.
- Text.Strip, Text.SplitWs and Text.IsDigit: whitespace and digits are ASCII. Python's `str.strip`,
  `str.split`, `\s` and `\d` also take U+1680, U+2000 to U+200A, U+2028, U+2029, U+202F, U+205F and
  U+3000 as whitespace, and `isdigit`, `int` and `\d` accept non-ASCII digits. Inputs with them are not
  modelled.
- Helpers.TextFile.CheckAndAppendLine: the appended target is kept as written. A carriage return in it, which
  reading the file back turns into a line break, is not translated. A file whose text ends in a carriage
  return, where the appended line feed joins it, is not modelled either.
- Python's file reading is modelled as `readlines` after newline translation. Decoding with
  `errors='ignore'` and the Unicode line separators U+2028 and U+2029 are not modelled.
- Regular expressions and `fnmatch` are not implemented in general. Each pattern the code uses is written
  out by hand. The `read_dsc` file-name pattern is a predicate parameter.
- Python `set` order is unspecified. The model uses the order of first appearance, and every ordering
  property is proved for all inputs.
- lxml parsing is not modelled. `ProjectInfo.Node` is the already-parsed element tree. Comment and
  processing-instruction nodes, whose tag is not a string, are not modelled.
- `create_project_info_file` reassigns `revision` from `au`, but the value is never used. The
  `project` argument is unused. Neither is modelled.
- Logging and colours are not modelled. Only the value logged by `create_project_info_file` for a group is
  kept.
- `find_changes_file` takes modification times as numbers from an oracle.
- The tar archive itself (`create_tar_of_data`) is not modelled. Directory creation (`os.makedirs`,
  `create_new_directory`) is not modelled either.
- `merge_manifests_from_folder` writes the merged manifest incrementally. The model writes the whole file
  once the walk ends, so observers of a partially written file are not modelled.
- Builder.Specific: recursion depth is a fuel budget standing for Python's recursion limit. A cycle is
  reported as a recursion error rather than as an exhausted stack. The dependency-first order is stated
  per recursive call, for the table as it stands there (`Builder.DepsBuildsEach`), not as one ordering of
  the whole trace.
- PackDeb.PackagePacker.ParseManifests: after an error the contents of `DEBS` and the QCOM manifest field
  are not specified.
- PackDeb.PackagePacker.GetDebList: the order of `list(set(...))` is unspecified, so only membership and
  the absence of duplicates are stated.
- Helpers.PullDebsWget: the function has no `return` statement, so it gives `None`. Its docstring
  (ubuntu/helpers.py:415-417) promises the number of packages downloaded. The model's result is the list
  of `wget` runs, not that count.
- Comparing the source's text output (`produce_report` and its `sed` pipe) is not modelled.
- Exception messages are not modelled, only the exception kind.

## Findings

| source | as written | input that shows it | evidently intended | confidence | as-written member | corrected member |
|---|---|---|---|---|---|---|
| scripts/ppa_organizer.py:128-131 | a matched `.dsc` file is copied and then `dsc_files.remove(deb_package)` removes a `.deb` name that is never in the `.dsc` list, raising `ValueError` | a listing with `foo_1.0.dsc` and `foo_1.0_arm64.deb` | remove the `.dsc` file that was copied | not executed | PpaOrganizer.AsWrittenReorganize | PpaOrganizer.FixedOutcome |
| ubuntu/build.py:221-223 | `build_specific_package` falls off the end and returns `None` after building, so the caller always raises "Unable to build" | `a` build-depends on `b`, both present | return `True` when the package was found and built, as the docstring at ubuntu/build_deb.py:328-329 says | not executed | Builder.CallerAlwaysRaises | Builder.FixedCallerAccepts |
| scripts/deb_abi_checker.py:598-600 | with `keep_temp` false the removal reads `abi_check_temp_dir`, a local variable of `single_repo_deb_abi_checker` undefined in `single_package_abi_checker`, so every package run reaching a classified status raises `NameError` after the remark and before the version check | `keep_temp=False` and a package whose new and old sides are both found, with `abipkgdiff` status 0 | remove the package's own directory `package_abi_check_temp_dir` and go on to the version check | not executed | AbiChecker.TempRemovalRaises | AbiChecker.TempRemovalFixed |
| ubuntu/pack_deb.py:157-192 | without an explicit manifest and without `qc_folder`, `parse_manifests` reaches `exit(1)` even after the default manifests loaded | image type `server`, variant `base`, a readable `/s/packages/base/server.manifest` | exit only when no manifest could be loaded | not executed | PackDeb.AsWrittenExample | PackDeb.FixedExitsOnlyWithoutManifest |
