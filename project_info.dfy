/** `ubuntu/generate_project_info_from_manifest.py`: the conversion of a parsed XML manifest into nested
    dictionaries (`etree_to_dict`), the `path<TAB>ship` lines of `project_info.txt` (`write_to_file`), and
    the component-tag lookup of a group (`get_comp_tag_for_groups`). The parsed document is a tree value;
    lxml itself is not part of this model. */
module ProjectInfo {

  import opened Wrappers
  import opened Collections
  import opened Text
  import Helpers
  import DebOrganize

  /** An XML element: its tag, its attributes in document order (XML names them once each), its text,
      and its child elements. */
  datatype Node = Node(tag: string, attrib: seq<(string, string)>, text: Option<string>, children: seq<Node>)

  /** The Python values `etree_to_dict` builds: `None`, a string, a dict, or a list. */
  datatype Value = Null | Str(s: string) | Table(d: Dict<string, Value>) | List(items: seq<Value>)

  /** `d.get(k)` */
  function Get<V>(d: Dict<string, V>, k: string): Option<V>
  {
    if k in d.items then Some(d.items[k]) else None
  }

  // ---------------------------------------------------------------------------------------------
  // etree_to_dict (lines 34-64)
  // ---------------------------------------------------------------------------------------------

  /** Whether `node.text` is truthy. */
  predicate HasText(n: Node)
  {
    n.text.Some? && n.text.value != []
  }

  /** `etree_to_dict(node)`: the one-entry dict `{tag: value}`, as its key and value. */
  function DictOf(n: Node): (string, Value)
    decreases n, 2
  {
    (n.tag, ValueOf(n))
  }

  /** The converted children in document order (line 52). */
  function Pairs(n: Node): seq<(string, Value)>
    decreases n, 0
  {
    seq(|n.children|, i requires 0 <= i < |n.children| => DictOf(n.children[i]))
  }

  /** `dd[key].append(val)` on a `defaultdict(list)`. */
  function Add(groups: Dict<string, seq<Value>>, k: string, v: Value): (r: Dict<string, seq<Value>>)
    requires groups.Valid()
    ensures r.Valid()
  {
    Put(groups, k, (if k in groups.items then groups.items[k] else []) + [v])
  }

  /** Lines 50-54: the children's values grouped by tag, tags in order of first appearance. */
  function Group(pairs: seq<(string, Value)>): (r: Dict<string, seq<Value>>)
    ensures r.Valid()
  {
    if pairs == [] then EmptyDict()
    else Add(Group(pairs[..|pairs| - 1]), pairs[|pairs| - 1].0, pairs[|pairs| - 1].1)
  }

  /** `val[0] if len(val) == 1 else val` */
  function Single(vs: seq<Value>): Value
  {
    if |vs| == 1 then vs[0] else List(vs)
  }

  /** Lines 55-56: each group collapsed, keys in the same order. */
  function Collapse(groups: Dict<string, seq<Value>>): (r: Dict<string, Value>)
    requires groups.Valid()
    ensures r.Valid() && r.keys == groups.keys
  {
    Dict(groups.keys, map k | k in groups.items :: Single(groups.items[k]))
  }

  /** Line 58: `d[tag].update(attrib)`, attribute by attribute. */
  function Update(d: Dict<string, Value>, attrib: seq<(string, string)>): (r: Dict<string, Value>)
    requires d.Valid()
    ensures r.Valid()
  {
    if attrib == [] then d
    else Put(Update(d, attrib[..|attrib| - 1]), attrib[|attrib| - 1].0, Str(attrib[|attrib| - 1].1))
  }

  /** Lines 46-63: the value under the node's tag. */
  function ValueOf(n: Node): Value
    decreases n, 1
  {
    var structured := n.children != [] || n.attrib != [];
    var d := Update(if n.children != [] then Collapse(Group(Pairs(n))) else EmptyDict(), n.attrib);
    if HasText(n) then
      if structured then Table(Put(d, "#text", Str(Strip(n.text.value)))) else Str(Strip(n.text.value))
    else if structured then Table(d)
    else Null
  }

  /** The values of the pairs with key `k`, in order. */
  function ValuesFor(pairs: seq<(string, Value)>, k: string): seq<Value>
  {
    if pairs == [] then []
    else ValuesFor(pairs[..|pairs| - 1], k) + (if pairs[|pairs| - 1].0 == k then [pairs[|pairs| - 1].1] else [])
  }

  /** The value of attribute `k` (XML names each attribute once; a repeated name would give its last value). */
  function Attr(attrib: seq<(string, string)>, k: string): Option<string>
  {
    if attrib == [] then None
    else if attrib[|attrib| - 1].0 == k then Some(attrib[|attrib| - 1].1)
    else Attr(attrib[..|attrib| - 1], k)
  }

  /** A tag holds the list of the values of its children with that tag, in order. */
  lemma {:induction false} GroupLookup(pairs: seq<(string, Value)>, k: string)
    ensures Get(Group(pairs), k) == if ValuesFor(pairs, k) == [] then None else Some(ValuesFor(pairs, k))
  {
    if pairs != [] {
      var n := |pairs| - 1;
      var g := Group(pairs[..n]);
      GroupLookup(pairs[..n], k);
      var vals := (if pairs[n].0 in g.items then g.items[pairs[n].0] else []) + [pairs[n].1];
      assert Group(pairs) == Put(g, pairs[n].0, vals);
      if pairs[n].0 == k {
        assert ValuesFor(pairs, k) == ValuesFor(pairs[..n], k) + [pairs[n].1] == vals;
      } else {
        assert ValuesFor(pairs, k) == ValuesFor(pairs[..n], k);
      }
    }
  }

  /** Attributes override what the children put under the same name. */
  lemma {:induction false} UpdateLookup(d: Dict<string, Value>, attrib: seq<(string, string)>, k: string)
    requires d.Valid()
    ensures Get(Update(d, attrib), k) ==
            if Attr(attrib, k).Some? then Some(Str(Attr(attrib, k).value)) else Get(d, k)
  {
    if attrib != [] {
      UpdateLookup(d, attrib[..|attrib| - 1], k);
    }
  }

  /** What the children put under a tag: nothing, the value of the one child with it, or the list of the
      values of all children with it. */
  function ChildEntry(pairs: seq<(string, Value)>, k: string): Option<Value>
  {
    var vs := ValuesFor(pairs, k);
    if vs == [] then None else Some(Single(vs))
  }

  /** A node without children, attributes or text is `None`; one with text only is its stripped text. */
  lemma ValueOfLeaf(n: Node)
    requires n.children == [] && n.attrib == []
    ensures ValueOf(n) == if HasText(n) then Str(Strip(n.text.value)) else Null
  {
  }

  /** A node with children or attributes is a dictionary; its stripped text goes under `#text`, an
      attribute under its name, and the children's values under their tags. */
  lemma ValueOfStructured(n: Node, k: string)
    requires n.children != [] || n.attrib != []
    ensures ValueOf(n).Table? && ValueOf(n).d.Valid()
    ensures Get(ValueOf(n).d, k) ==
            if k == "#text" && HasText(n) then Some(Str(Strip(n.text.value)))
            else if Attr(n.attrib, k).Some? then Some(Str(Attr(n.attrib, k).value))
            else ChildEntry(Pairs(n), k)
  {
    var base := if n.children != [] then Collapse(Group(Pairs(n))) else EmptyDict();
    if n.children != [] {
      GroupLookup(Pairs(n), k);
    }
    assert Get(base, k) == ChildEntry(Pairs(n), k);
    UpdateLookup(base, n.attrib, k);
  }

  /** Lines 34-64, recursion and loops as written. */
  method EtreeToDict(n: Node) returns (tag: string, value: Value)
    ensures (tag, value) == DictOf(n)
    decreases n, 1
  {
    var d: Dict<string, Value> := EmptyDict();
    if n.children != [] {
      var groups := GroupChildren(n);
      d := Collapse(groups);
    }
    if n.attrib != [] {
      d := UpdateAttributes(d, n.attrib);
    }
    assert d == Update(if n.children != [] then Collapse(Group(Pairs(n))) else EmptyDict(), n.attrib);
    value := if n.children != [] || n.attrib != [] then Table(d) else Null;
    if n.text.Some? && n.text.value != [] {
      var text := Strip(n.text.value);
      if n.children != [] || n.attrib != [] {
        value := Table(Put(d, "#text", Str(text)));
      } else {
        value := Str(text);
      }
    }
    tag := n.tag;
  }

  /** Lines 50-53: the children converted one by one and grouped by tag. */
  method GroupChildren(n: Node) returns (groups: Dict<string, seq<Value>>)
    ensures groups == Group(Pairs(n))
    decreases n, 0
  {
    groups := EmptyDict();
    for i := 0 to |n.children|
      invariant groups == Group(Pairs(n)[..i])
    {
      var key, val := EtreeToDict(n.children[i]);
      assert Pairs(n)[..i + 1][..i] == Pairs(n)[..i];
      groups := Add(groups, key, val);
    }
    assert Pairs(n)[..|n.children|] == Pairs(n);
  }

  /** Line 58: the attributes set one by one. */
  method UpdateAttributes(d: Dict<string, Value>, attrib: seq<(string, string)>) returns (r: Dict<string, Value>)
    requires d.Valid()
    ensures r == Update(d, attrib)
  {
    r := d;
    for j := 0 to |attrib|
      invariant r == Update(d, attrib[..j])
    {
      assert attrib[..j + 1][..j] == attrib[..j];
      r := Put(r, attrib[j].0, Str(attrib[j].1));
    }
    assert attrib[..|attrib|] == attrib;
  }

  // ---------------------------------------------------------------------------------------------
  // write_to_file (lines 67-88)
  // ---------------------------------------------------------------------------------------------

  /** `project.get('path')` as `format` prints it: an absent path prints as `None`. */
  function PathText(p: Node): string
  {
    var path := Attr(p.attrib, "path");
    if path.Some? then path.value else "None"
  }

  /** Lines 83-87: `oss` for `x-ship="oss"`, `prop` for anything else, absent included. */
  function Ship(p: Node): (r: string)
    ensures r == "oss" || r == "prop"
  {
    if Attr(p.attrib, "x-ship") == Some("oss") then "oss" else "prop"
  }

  /** Line 88 for one project. */
  function ProjectLine(p: Node): string
  {
    PathText(p) + "\t" + Ship(p) + "\n"
  }

  /** What `write_to_file` writes. */
  function ProjectsText(projects: seq<Node>): string
  {
    if projects == [] then ""
    else ProjectsText(projects[..|projects| - 1]) + ProjectLine(projects[|projects| - 1])
  }

  /** Lines 78-79: the output path. */
  function OutPath(workspace: string, outPath: string): string
  {
    if outPath == [] then PathJoin(workspace, "project_info.txt") else outPath
  }

  /** Lines 67-89: the path written and its contents. */
  method WriteToFile(workspace: string, projects: seq<Node>, outPath: string) returns (path: string, text: string)
    ensures path == OutPath(workspace, outPath)
    ensures text == ProjectsText(projects)
  {
    path := outPath;
    if path == [] {
      path := PathJoin(workspace, "project_info.txt");
    }
    text := "";
    for i := 0 to |projects|
      invariant text == ProjectsText(projects[..i])
    {
      assert projects[..i + 1][..i] == projects[..i];
      var ship := Attr(projects[i].attrib, "x-ship");
      var shipText := if ship == Some("oss") then "oss" else "prop";
      var line := PathText(projects[i]) + "\t" + shipText + "\n";
      assert line == ProjectLine(projects[i]);
      text := text + line;
    }
    assert projects[..|projects|] == projects;
  }

  /** A line of `project_info.txt` reads back, with the parser of `ubuntu/deb_organize.py`, as the path
      and the ship category, when the path is one whitespace-free word. */
  lemma ProjectLineReadBack(p: Node)
    requires Helpers.IsField(PathText(p))
    ensures DebOrganize.ParseRow(ProjectLine(p)) == Some(DebOrganize.Row(PathText(p), Ship(p)))
    ensures '\n' !in PathText(p) + "\t" + Ship(p)
  {
    var ship := Ship(p);
    assert Helpers.IsField(ship) by {
      if ship == "oss" {
        assert forall i :: 0 <= i < |ship| ==> ship[i] in "os";
      } else {
        assert forall i :: 0 <= i < |ship| ==> ship[i] in "prop";
      }
    }
    TabLine(PathText(p), ship);
  }

  /** Two whitespace-free words joined by a tab read back as a row. */
  lemma TabLine(a: string, b: string)
    requires Helpers.IsField(a) && Helpers.IsField(b)
    ensures DebOrganize.ParseRow(a + "\t" + b + "\n") == Some(DebOrganize.Row(a, b))
    ensures '\n' !in a + "\t" + b
  {
    var s := a + "\t" + b;
    assert a + "\t" + b + "\n" == s + ['\n'];
    TabLineParts(a, b);
    Helpers.StripKeepsEnds(a);
    Helpers.StripKeepsEnds(b);
  }

  lemma TabLineParts(a: string, b: string)
    requires Helpers.IsField(a) && Helpers.IsField(b)
    ensures Strip(a + "\t" + b + ['\n']) == a + "\t" + b
    ensures SplitChar(a + "\t" + b, '\t') == [a, b]
    ensures '\n' !in a + "\t" + b
  {
    var s := a + "\t" + b;
    NoSpaceNoTab(a);
    NoSpaceNoTab(b);
    StripSnocSpace(s, '\n');
    assert s[0] == a[0] && s[|s| - 1] == b[|b| - 1];
    Helpers.StripKeepsEnds(s);
    var k := |a|;
    assert s[..k] == a && s[k] == '\t' && s[k + 1..] == b;
    SplitCharAt(s, '\t', k);
    SplitCharNone(b, '\t');
    assert forall i :: 0 <= i < |s| ==> s[i] == '\t' || s[i] in a || s[i] in b;
  }

  lemma NoSpaceNoTab(s: string)
    requires NoSpace(s)
    ensures '\t' !in s && '\n' !in s
  {
  }

  /** `project_info.txt` splits into one line per project. */
  lemma {:induction false} ProjectsLines(projects: seq<Node>)
    requires forall i :: 0 <= i < |projects| ==> Helpers.IsField(PathText(projects[i]))
    ensures ReadLines(ProjectsText(projects)) == MapSeq(projects, ProjectLine)
    ensures ProjectsText(projects) == [] || ProjectsText(projects)[|ProjectsText(projects)| - 1] == '\n'
  {
    if projects != [] {
      var n := |projects| - 1;
      var before := ProjectsText(projects[..n]);
      var line := ProjectLine(projects[n]);
      ProjectsLines(projects[..n]);
      ProjectLineReadBack(projects[n]);
      ReadLinesAppend(before, line);
      ReadLinesOne(PathText(projects[n]) + "\t" + Ship(projects[n]));
    }
  }

  /** What `generate_manifest_map` reads back from the file `write_to_file` wrote: one row per project,
      its path and ship category, and no `IndexError`. */
  lemma ProjectInfoReadBack(projects: seq<Node>)
    requires forall i :: 0 <= i < |projects| ==> Helpers.IsField(PathText(projects[i]))
    ensures var lines := ReadLines(ProjectsText(projects));
            |lines| == |projects| &&
            (forall i :: 0 <= i < |projects| ==>
               DebOrganize.ParseRow(lines[i]) == Some(DebOrganize.Row(PathText(projects[i]), Ship(projects[i])))) &&
            DebOrganize.ReadMap(lines).Ok?
  {
    var lines := ReadLines(ProjectsText(projects));
    ProjectsLines(projects);
    forall i | 0 <= i < |projects|
      ensures DebOrganize.ParseRow(lines[i]) == Some(DebOrganize.Row(PathText(projects[i]), Ship(projects[i])))
    {
      MapSeqAt(projects, ProjectLine, i);
      ProjectLineReadBack(projects[i]);
    }
    DebOrganize.ReadMapOk(lines);
  }

  /** A path maps, in the read-back map, to the ship category of the last project with that path. */
  lemma ProjectInfoLatest(projects: seq<Node>, i: nat)
    requires forall j :: 0 <= j < |projects| ==> Helpers.IsField(PathText(projects[j]))
    requires i < |projects| && forall j :: i < j < |projects| ==> PathText(projects[j]) != PathText(projects[i])
    ensures DebOrganize.ReadMap(ReadLines(ProjectsText(projects))).Ok?
    ensures PathText(projects[i]) in DebOrganize.ReadMap(ReadLines(ProjectsText(projects))).value.items
    ensures DebOrganize.ReadMap(ReadLines(ProjectsText(projects))).value.items[PathText(projects[i])] == Ship(projects[i])
  {
    ProjectInfoReadBack(projects);
    DebOrganize.ReadMapLatest(ReadLines(ProjectsText(projects)), i);
  }

  // ---------------------------------------------------------------------------------------------
  // get_comp_tag_for_groups (lines 137-153) and create_project_info_file (lines 108-134)
  // ---------------------------------------------------------------------------------------------

  /** Lines 150-152: a project of the group with a non-empty component tag. */
  predicate Tagged(p: Node, group: string)
  {
    Attr(p.attrib, "groups") == Some(group) && Attr(p.attrib, "x-component-tag").Some? &&
    Attr(p.attrib, "x-component-tag").value != []
  }

  /** `get_comp_tag_for_groups(projects, group)`: the tag of the first tagged project of the group, with every
      `refs/tags/` removed, or `None`. */
  function CompTag(projects: seq<Node>, group: string): Option<string>
  {
    if projects == [] then None
    else if Tagged(projects[0], group) then
      Some(ReplaceAll(Attr(projects[0].attrib, "x-component-tag").value, "refs/tags/", ""))
    else CompTag(projects[1..], group)
  }

  /** A tag is found exactly when some project of the group is tagged, and it comes from the first one. */
  lemma {:induction false} CompTagFirst(projects: seq<Node>, group: string)
    ensures CompTag(projects, group).Some? <==> exists i :: 0 <= i < |projects| && Tagged(projects[i], group)
    ensures CompTag(projects, group).Some? ==>
              exists i :: 0 <= i < |projects| && Tagged(projects[i], group) &&
                          (forall j :: 0 <= j < i ==> !Tagged(projects[j], group)) &&
                          CompTag(projects, group) ==
                          Some(ReplaceAll(Attr(projects[i].attrib, "x-component-tag").value, "refs/tags/", ""))
  {
    if projects != [] && !Tagged(projects[0], group) {
      var rest := projects[1..];
      CompTagFirst(rest, group);
      if exists i :: 0 <= i < |projects| && Tagged(projects[i], group) {
        var i :| 0 <= i < |projects| && Tagged(projects[i], group);
        assert rest[i - 1] == projects[i];
      }
      if CompTag(rest, group).Some? {
        var i :| 0 <= i < |rest| && Tagged(rest[i], group) && (forall j :: 0 <= j < i ==> !Tagged(rest[j], group)) &&
                 CompTag(rest, group) == Some(ReplaceAll(Attr(rest[i].attrib, "x-component-tag").value, "refs/tags/", ""));
        assert rest[i] == projects[i + 1];
        forall j | 0 <= j < i + 1 ensures !Tagged(projects[j], group) {
          if j > 0 {
            assert projects[j] == rest[j - 1];
          }
        }
      }
    }
  }

  /** Lines 137-153, the loop as written. */
  method GetCompTagForGroups(projects: seq<Node>, group: string) returns (tag: Option<string>)
    ensures tag == CompTag(projects, group)
  {
    for i := 0 to |projects|
      invariant CompTag(projects, group) == CompTag(projects[i..], group)
    {
      assert projects[i..][1..] == projects[i + 1..];
      if Attr(projects[i].attrib, "groups") == Some(group) {
        var compTag := Attr(projects[i].attrib, "x-component-tag");
        if compTag.Some? && compTag.value != [] {
          return Some(ReplaceAll(compTag.value, "refs/tags/", ""));
        }
      }
    }
    return None;
  }

  /** A tag `refs/tags/<name>` yields `<name>`. */
  lemma TagWithoutPrefix(name: string)
    requires !Contains(name, "refs/tags/")
    ensures ReplaceAll("refs/tags/" + name, "refs/tags/", "") == name
  {
    var pat := "refs/tags/";
    var s := pat + name;
    assert s[..|pat|] == pat;
    assert Find(s, pat) == 0;
    assert s[|pat|..] == name && s[..0] == [];
    assert Find(name, pat) == -1;
    assert SplitOn(name, pat) == [name];
    assert SplitOn(s, pat) == [[], name];
    assert Join([[], name], "") == name;
  }

  /** What `create_project_info_file` does. */
  datatype Effect = Wrote(path: string, text: string) | LoggedTag(tag: Option<string>) | Warned

  /** `xml_root.findall('project')`: the direct children tagged `project`. */
  function Projects(root: Node): seq<Node>
  {
    Filter(root.children, IsProject)
  }

  predicate IsProject(n: Node)
  {
    n.tag == "project"
  }

  /** Lines 108-134, with `manifest` the parsed `.repo/manifests/default.xml` (`None` when it does not
      exist) and an empty `group` standing for none. */
  function CreateProjectInfo(workspace: string, group: string, outPath: string, manifest: Option<Node>): Effect
  {
    if manifest.None? then Warned
    else if group != [] then LoggedTag(CompTag(Projects(manifest.value), group))
    else Wrote(OutPath(workspace, outPath), ProjectsText(Projects(manifest.value)))
  }

  /** The file `generate_manifest_map` asks for (no group, an explicit output path) is written with one
      line per project of the manifest. */
  lemma CreateForManifestMap(workspace: string, outPath: string, root: Node)
    requires outPath != []
    requires forall i :: 0 <= i < |Projects(root)| ==> Helpers.IsField(PathText(Projects(root)[i]))
    ensures var e := CreateProjectInfo(workspace, [], outPath, Some(root));
            e.Wrote? && e.path == outPath && |ReadLines(e.text)| == |Projects(root)| &&
            DebOrganize.ReadMap(ReadLines(e.text)).Ok?
  {
    ProjectInfoReadBack(Projects(root));
  }
}
