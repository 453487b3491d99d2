/** internal/web/web/sidebars.js: the documentation site's sidebar, built
    from the files under the docs directory. Paths are '/'-separated;
    readdirSync and statSync are modelled by a directory tree, and
    existsSync of the index file by a flag. */
module Sidebars {
  import opened Wrappers
  import opened Strings
  import opened Seqs
  import FilePath

  // ------------------------------------------------- String.prototype.replace

  /** JavaScript's `s.replace(pat, rep)` with a string pattern: only the
      first occurrence is replaced; an empty pattern matches at the start. */
  function ReplaceFirst(s: string, pat: string, rep: string): (r: string)
    ensures HasPrefix(s, pat) ==> r == rep + s[|pat|..]
    decreases |s|
  {
    if HasPrefix(s, pat) then rep + s[|pat|..]
    else if s == [] then s
    else [s[0]] + ReplaceFirst(s[1..], pat, rep)
  }

  /** A string without the pattern is returned unchanged. */
  lemma {:induction false} ReplaceFirstAbsent(s: string, pat: string, rep: string)
    requires !Contains(s, pat)
    ensures ReplaceFirst(s, pat, rep) == s
    decreases |s|
  {
    if s != [] {
      ReplaceFirstAbsent(s[1..], pat, rep);
    }
  }

  lemma ReplaceFirstNotHere(s: string, pat: string, rep: string)
    requires s != [] && !HasPrefix(s, pat)
    ensures ReplaceFirst(s, pat, rep) == [s[0]] + ReplaceFirst(s[1..], pat, rep)
  {
  }

  lemma ReplaceFirstSkipFirst(x: string, pat: string, y: string, rep: string)
    requires x != [] && !HasPrefix(x + pat + y, pat)
    ensures ReplaceFirst(x + pat + y, pat, rep) == [x[0]] + ReplaceFirst(x[1..] + pat + y, pat, rep)
  {
    var s := x + pat + y;
    ReplaceFirstNotHere(s, pat, rep);
    assert s[1..] == x[1..] + pat + y;
  }

  lemma ReplaceFirstAtStart(pat: string, y: string, rep: string)
    ensures ReplaceFirst(pat + y, pat, rep) == rep + y
  {
    assert HasPrefix(pat + y, pat);
    assert (pat + y)[|pat|..] == y;
  }

  /** Only the first occurrence is replaced; what follows it is kept as it is. */
  lemma {:induction false} ReplaceFirstAt(x: string, pat: string, y: string, rep: string)
    requires |pat| > 0 && FirstAfter(x, pat)
    ensures ReplaceFirst(x + pat + y, pat, rep) == x + rep + y
    decreases |x|
  {
    if x == [] {
      ReplaceFirstAtStart(pat, y, rep);
      assert x + pat + y == pat + y;
    } else {
      FirstAfterTail(x, pat, y);
      ReplaceFirstAt(x[1..], pat, y, rep);
      ReplaceFirstSkipFirst(x, pat, y, rep);
      ConsSplit(x, rep, y);
    }
  }

  /** When the pattern's first character does not occur before it, the
      pattern found is the one that follows. */
  lemma {:induction false} ReplaceFirstAfterPlain(x: string, pat: string, y: string, rep: string)
    requires pat != [] && pat[0] !in x
    ensures ReplaceFirst(x + pat + y, pat, rep) == x + rep + y
    decreases |x|
  {
    if x == [] {
      ReplaceFirstAtStart(pat, y, rep);
      assert x + pat + y == pat + y;
    } else {
      assert (x + pat + y)[0] == x[0];
      ReplaceFirstSkipFirst(x, pat, y, rep);
      ReplaceFirstAfterPlain(x[1..], pat, y, rep);
      ConsSplit(x, rep, y);
    }
  }

  // --------------------------------------------------------------- walkSync

  /** A directory entry as statSync classifies it: a file, a directory with
      its entries in readdirSync's order, or anything else. */
  datatype Node = File(name: string) | Dir(name: string, children: seq<Node>) | Special(name: string)

  /** The files under `dir`, depth first in directory order. */
  function Files(dir: string, nodes: seq<Node>): (r: seq<string>)
    decreases nodes
  {
    if nodes == [] then [] else Here(dir, nodes[0]) + Files(dir, nodes[1..])
  }

  /** `p` is the path of a file somewhere in the tree. */
  ghost predicate FileAt(dir: string, nodes: seq<Node>, p: string)
    decreases nodes
  {
    exists i :: 0 <= i < |nodes| &&
      var path := FilePath.Join2(dir, nodes[i].name);
      (nodes[i].File? && p == path) || (nodes[i].Dir? && FileAt(path, nodes[i].children, p))
  }

  /** walkSync lists exactly the files: directories are entered, never listed. */
  lemma {:induction false} FilesAreTheFiles(dir: string, nodes: seq<Node>, p: string)
    ensures p in Files(dir, nodes) <==> FileAt(dir, nodes, p)
    decreases nodes
  {
    if nodes != [] {
      var path := FilePath.Join2(dir, nodes[0].name);
      FilesAreTheFiles(dir, nodes[1..], p);
      if nodes[0].Dir? {
        FilesAreTheFiles(path, nodes[0].children, p);
      }
      if FileAt(dir, nodes, p) {
        var i :| 0 <= i < |nodes| &&
          var q := FilePath.Join2(dir, nodes[i].name);
          (nodes[i].File? && p == q) || (nodes[i].Dir? && FileAt(q, nodes[i].children, p));
        if i > 0 {
          assert nodes[1..][i - 1] == nodes[i];
        }
      }
      if FileAt(dir, nodes[1..], p) {
        var i :| 0 <= i < |nodes[1..]| &&
          var q := FilePath.Join2(dir, nodes[1..][i].name);
          (nodes[1..][i].File? && p == q) || (nodes[1..][i].Dir? && FileAt(q, nodes[1..][i].children, p));
        assert nodes[i + 1] == nodes[1..][i];
      }
    }
  }

  /** What one entry contributes to the walk of its directory. */
  function Here(dir: string, n: Node): seq<string>
    decreases n
  {
    match n
    case File(name) => [FilePath.Join2(dir, name)]
    case Dir(name, children) => Files(FilePath.Join2(dir, name), children)
    case Special(_) => []
  }

  /** One loop step of walkSync keeps the walk's invariant. */
  lemma WalkStep(dir: string, nodes: seq<Node>, i: nat, done: seq<string>)
    requires i < |nodes|
    requires done + Files(dir, nodes[i..]) == Files(dir, nodes)
    ensures (done + Here(dir, nodes[i])) + Files(dir, nodes[i + 1..]) == Files(dir, nodes)
  {
    var t := nodes[i..];
    assert t[0] == nodes[i] && t[1..] == nodes[i + 1..];
    assert Files(dir, t) == Here(dir, t[0]) + Files(dir, t[1..]);
  }

  /** walkSync: files are pushed, directories' lists concatenated. */
  method WalkSync(dir: string, nodes: seq<Node>) returns (fileList: seq<string>)
    ensures fileList == Files(dir, nodes)
    decreases nodes
  {
    fileList := [];
    var i := 0;
    while i < |nodes|
      invariant 0 <= i <= |nodes|
      invariant fileList + Files(dir, nodes[i..]) == Files(dir, nodes)
    {
      var fullPath := FilePath.Join2(dir, nodes[i].name);
      var here: seq<string>;
      match nodes[i] {
        case Dir(_, children) =>
          here := WalkSync(fullPath, children);
        case File(_) =>
          here := [fullPath];
        case Special(_) =>
          here := [];
      }
      assert here == Here(dir, nodes[i]);
      WalkStep(dir, nodes, i, fileList);
      fileList := fileList + here;
      i := i + 1;
    }
    assert nodes[i..] == [];
  }

  // ---------------------------------------------------------- the grouping

  /** docName -> doc id, app -> docs, namespace -> apps, each in insertion order. */
  type Docs = Assoc<string, string>
  type Apps = Assoc<string, Docs>
  type Table = Assoc<string, Apps>

  function NoDocs(): Docs { Assoc([], []) }
  function NoApps(): Apps { Assoc([], []) }

  ghost predicate AppsOk(a: Apps)
  {
    a.Valid() && forall d :: d in a.vals ==> d.Valid()
  }

  ghost predicate TableOk(t: Table)
  {
    t.Valid() && forall a :: a in t.vals ==> AppsOk(a)
  }

  /** What one file contributes, if anything. */
  datatype Located = Located(namespace: string, app: string, docName: string, id: string)

  /** A file counts when its path, with the docs directory's first occurrence
      removed, has a fourth '/'-segment ending in ".md": that segment without
      its first ".md" is the label, and the path without its first '/' and
      first ".md" is the id. */
  function Locate(docsDir: string, filename: string): (r: Option<Located>)
    ensures var parts := Split(ReplaceFirst(filename, docsDir, ""), '/');
      && (r.Some? <==> |parts| >= 4 && HasSuffix(parts[3], ".md"))
      && (r.Some? ==> r.value.namespace == parts[1] && r.value.app == parts[2]
                      && r.value.docName == ReplaceFirst(parts[3], ".md", ""))
  {
    var fn := ReplaceFirst(filename, docsDir, "");
    var parts := Split(fn, '/');
    if |parts| < 4 || !HasSuffix(parts[3], ".md") then None
    else
      Some(Located(parts[1], parts[2], ReplaceFirst(parts[3], ".md", ""),
                   ReplaceFirst(ReplaceFirst(fn, "/", ""), ".md", "")))
  }

  /** A file directly in the docs directory (such as its README) has too few
      segments to enter a category. */
  lemma {:induction false} TopLevelFileSkipped(docsDir: string, filename: string, name: string)
    requires '/' !in name
    requires ReplaceFirst(filename, docsDir, "") == "/" + name
    ensures Locate(docsDir, filename).None?
  {
    var fn := "/" + name;
    SplitNoSeparator(name, '/');
    assert fn[0] == '/' && fn[1..] == name;
    assert Split(fn, '/') == [""] + Split(name, '/');
    SplitMany(name, '/');
  }

  /** `replace` with a pattern free of '/' that does not occur in the
      directories `x` in front of the last segment leaves them alone. */
  lemma {:induction false} ReplaceFirstPastDirs(x: string, d: string, pat: string, rep: string)
    requires |x| > 0 && x[|x| - 1] == '/' && '/' !in pat && !Contains(x, pat)
    ensures ReplaceFirst(x + d, pat, rep) == x + ReplaceFirst(d, pat, rep)
    decreases |x|
  {
    var s := x + d;
    if |x| >= |pat| {
      assert s[..|pat|] == x[..|pat|];
    } else {
      assert s[|x| - 1] == '/';
      assert |pat| <= |s| ==> s[..|pat|][|x| - 1] == '/';
    }
    ReplaceFirstNotHere(s, pat, rep);
    assert s[1..] == x[1..] + d;
    if |x| > 1 {
      ReplaceFirstPastDirs(x[1..], d, pat, rep);
      ConsSplit(x, "", ReplaceFirst(d, pat, rep));
    }
  }

  /** A doc file at `/ns/app/d` below the docs directory, with `d` ending in
      ".md", is recorded under namespace `ns`, app `app` and doc name `d`
      without its first ".md", and its id is the relative path `ns/app/d`
      without that ".md". (`DroppedDocsDir` gives the relative path of
      `docsDir + "/ns/app/d"`.) */
  lemma LocateDoc(docsDir: string, filename: string, ns: string, app: string, d: string)
    requires ReplaceFirst(filename, docsDir, "") == "/" + ns + "/" + app + "/" + d
    requires '/' !in ns && '/' !in app && '/' !in d
    requires HasSuffix(d, ".md")
    requires !Contains(ns + "/" + app + "/", ".md")
    ensures Locate(docsDir, filename) ==
      Some(Located(ns, app, ReplaceFirst(d, ".md", ""), ns + "/" + app + "/" + ReplaceFirst(d, ".md", "")))
  {
    var fn := "/" + ns + "/" + app + "/" + d;
    var id := ns + "/" + app + "/" + ReplaceFirst(d, ".md", "");
    DocSegments(ns, app, d);
    DocId(ns, app, d);
    LocateOf(docsDir, filename, fn, ["", ns, app, d], id);
  }

  /** The docs directory at the front of a path is what `replace` removes. */
  lemma DroppedDocsDir(docsDir: string, fn: string)
    ensures ReplaceFirst(docsDir + fn, docsDir, "") == fn
  {
    ReplaceFirstAtStart(docsDir, fn, "");
    assert "" + fn == fn;
  }

  lemma DocSegments(ns: string, app: string, d: string)
    requires '/' !in ns && '/' !in app && '/' !in d
    ensures Split("/" + ns + "/" + app + "/" + d, '/') == ["", ns, app, d]
  {
    var rel := ns + "/" + app + "/" + d;
    var fn := "/" + ns + "/" + app + "/" + d;
    assert fn == "/" + rel && fn[0] == '/' && fn[1..] == rel;
    SplitFileParts(ns, app, d);
  }

  lemma DocId(ns: string, app: string, d: string)
    requires !Contains(ns + "/" + app + "/", ".md")
    ensures ReplaceFirst(ReplaceFirst("/" + ns + "/" + app + "/" + d, "/", ""), ".md", "")
      == ns + "/" + app + "/" + ReplaceFirst(d, ".md", "")
  {
    var dirs := ns + "/" + app + "/";
    var rel := dirs + d;
    assert "/" + ns + "/" + app + "/" + d == "/" + rel;
    ReplaceFirstAtStart("/", rel, "");
    assert "" + rel == rel;
    ReplaceFirstPastDirs(dirs, d, ".md", "");
  }

  /** Locate, given the replaced path, its segments and its id. */
  lemma LocateOf(docsDir: string, filename: string, fn: string, parts: seq<string>, id: string)
    requires ReplaceFirst(filename, docsDir, "") == fn && Split(fn, '/') == parts
    requires |parts| >= 4 && HasSuffix(parts[3], ".md")
    requires ReplaceFirst(ReplaceFirst(fn, "/", ""), ".md", "") == id
    ensures Locate(docsDir, filename) == Some(Located(parts[1], parts[2], ReplaceFirst(parts[3], ".md", ""), id))
  {
  }

  lemma SplitFileParts(ns: string, app: string, d: string)
    requires '/' !in ns && '/' !in app && '/' !in d
    ensures Split(ns + "/" + app + "/" + d, '/') == [ns, app, d]
  {
    SplitAppend(ns, app, '/');
    SplitWhole(ns, '/');
    assert ns + "/" + app == ns + ['/'] + app;
    SplitAppend(ns + "/" + app, d, '/');
    assert ns + "/" + app + "/" + d == (ns + "/" + app) + ['/'] + d;
  }

  /** With a clean docs directory that is neither "." nor ends in '/',
      the index entry is "README". */
  lemma IndexIdIsReadme(docsDir: string)
    requires docsDir != "" && docsDir != "." && docsDir[|docsDir| - 1] != '/'
    requires FilePath.Clean(docsDir) == docsDir
    ensures IndexId(docsDir) == "README"
  {
    FilePath.JoinClean(docsDir, "README.md");
    IndexIdOfJoined(docsDir, FilePath.Join2(docsDir, "README.md"));
  }

  lemma IndexIdOfJoined(docsDir: string, joined: string)
    requires joined == docsDir + "/" + "README.md"
    ensures ReplaceFirst(ReplaceFirst(ReplaceFirst(joined, docsDir, ""), "/", ""), ".md", "") == "README"
  {
    assert "README.md" == "README" + ".md";
    StripIndexPath(docsDir, "README", ".md");
  }

  /** Removing the directory, the first '/' and the first `ext` from
      `dir + "/" + name + ext` leaves `name` when `name` lacks the first character of `ext`. */
  lemma StripIndexPath(dir: string, name: string, ext: string)
    requires ext != [] && ext[0] !in name
    ensures ReplaceFirst(ReplaceFirst(ReplaceFirst(dir + "/" + (name + ext), dir, ""), "/", ""), ext, "") == name
  {
    var rest := "/" + (name + ext);
    assert dir + "/" + (name + ext) == dir + rest;
    ReplaceFirstAtStart(dir, rest, "");
    assert "" + rest == rest;
    ReplaceFirstAtStart("/", name + ext, "");
    assert "" + (name + ext) == name + ext;
    ReplaceFirstAfterPlain(name, ext, "", "");
    assert name + ext + "" == name + ext && name + "" + "" == name;
  }

  /** The namespaces seen (the Set) and the nested assignments (`apps`). */
  datatype Grouping = Grouping(namespaces: seq<string>, apps: Table)

  /** One iteration of the forEach: add the namespace to the Set and assign
      `apps[namespace][app][docName] = id`, creating the levels on first use. */
  function Record(g: Grouping, l: Located): (r: Grouping)
    requires TableOk(g.apps)
    ensures TableOk(r.apps)
  {
    var own := Lookup(g.apps, l.namespace, NoApps());
    var docs := Lookup(own, l.app, NoDocs());
    var namespaces := if l.namespace in g.namespaces then g.namespaces else g.namespaces + [l.namespace];
    Grouping(namespaces, Put(g.apps, l.namespace, Put(own, l.app, Put(docs, l.docName, l.id))))
  }

  /** The grouping after the forEach over `items`. */
  function Group(docsDir: string, items: seq<string>): (g: Grouping)
    ensures TableOk(g.apps)
    decreases |items|
  {
    if items == [] then Grouping([], Assoc([], []))
    else
      var before := Group(docsDir, items[..|items| - 1]);
      match Locate(docsDir, items[|items| - 1])
      case None => before
      case Some(l) => Record(before, l)
  }

  /** One file of the forEach: skipped, or recorded into the grouping so far. */
  lemma GroupStep(docsDir: string, items: seq<string>, i: nat)
    requires i < |items|
    ensures Locate(docsDir, items[i]).None? ==> Group(docsDir, items[..i + 1]) == Group(docsDir, items[..i])
    ensures Locate(docsDir, items[i]).Some? ==>
      Group(docsDir, items[..i + 1]) == Record(Group(docsDir, items[..i]), Locate(docsDir, items[i]).value)
  {
    assert items[..i + 1][..i] == items[..i];
  }

  /** The namespaces of the files that count, in file order with repeats. */
  function Counted(docsDir: string, items: seq<string>): (ns: seq<string>)
    decreases |items|
  {
    if items == [] then []
    else
      var init := Counted(docsDir, items[..|items| - 1]);
      match Locate(docsDir, items[|items| - 1])
      case None => init
      case Some(l) => init + [l.namespace]
  }

  /** The Set holds each counted namespace once, in order of first
      appearance, and is exactly the key order of `apps`. */
  lemma {:induction false} GroupNamespaces(docsDir: string, items: seq<string>)
    ensures Group(docsDir, items).namespaces == FirstOccurrences(Counted(docsDir, items))
    ensures Group(docsDir, items).namespaces == Group(docsDir, items).apps.keys
    decreases |items|
  {
    if items != [] {
      var init := items[..|items| - 1];
      GroupNamespaces(docsDir, init);
      var c := Counted(docsDir, init);
      FirstOccurrencesSpec(c);
      match Locate(docsDir, items[|items| - 1])
      case None =>
      case Some(l) =>
        var g := Group(docsDir, init);
        var own := Lookup(g.apps, l.namespace, NoApps());
        PutSpec(g.apps, l.namespace, Put(own, l.app, Put(Lookup(own, l.app, NoDocs()), l.docName, l.id)), l.namespace, NoApps());
        assert (c + [l.namespace])[..|c|] == c;
    }
  }

  /** Each namespace gets one category: the Set has no repeats and holds
      every counted namespace and nothing else. */
  lemma OneCategoryPerNamespace(docsDir: string, items: seq<string>)
    ensures Distinct(Group(docsDir, items).namespaces)
    ensures forall n :: n in Group(docsDir, items).namespaces <==> n in Counted(docsDir, items)
  {
    GroupNamespaces(docsDir, items);
    FirstOccurrencesSpec(Counted(docsDir, items));
  }

  /** The id stored for a namespace, app and doc name ("" when there is none). */
  function IdOf(t: Table, ns: string, app: string, docName: string): string
    requires TableOk(t)
  {
    Lookup(Lookup(Lookup(t, ns, NoApps()), app, NoDocs()), docName, "")
  }

  /** A file that counts assigns its id to its own namespace, app and doc
      name, replacing an earlier one, and leaves every other entry alone. */
  lemma RecordAssigns(g: Grouping, l: Located, ns: string, app: string, docName: string)
    requires TableOk(g.apps)
    ensures IdOf(Record(g, l).apps, l.namespace, l.app, l.docName) == l.id
    ensures (ns, app, docName) != (l.namespace, l.app, l.docName) ==>
      IdOf(Record(g, l).apps, ns, app, docName) == IdOf(g.apps, ns, app, docName)
  {
    var t := g.apps;
    var own := Lookup(t, l.namespace, NoApps());
    var docs := Lookup(own, l.app, NoDocs());
    var docs' := Put(docs, l.docName, l.id);
    var own' := Put(own, l.app, docs');
    PutSpec(t, l.namespace, own', ns, NoApps());
    PutSpec(own, l.app, docs', app, NoDocs());
    PutSpec(docs, l.docName, l.id, docName, "");
    if ns == l.namespace {
      PutSpec(own, l.app, docs', l.app, NoDocs());
      if app == l.app {
        PutSpec(docs, l.docName, l.id, l.docName, "");
      }
    }
  }

  /** A file that does not count changes nothing. */
  lemma SkippedChangesNothing(docsDir: string, items: seq<string>, f: string)
    requires Locate(docsDir, f).None?
    ensures Group(docsDir, items + [f]) == Group(docsDir, items)
  {
    assert (items + [f])[..|items|] == items;
  }

  /** The last file to name a namespace, app and doc name decides its id. */
  lemma LaterFileWins(docsDir: string, items: seq<string>, f: string)
    requires Locate(docsDir, f).Some?
    ensures var l := Locate(docsDir, f).value;
      IdOf(Group(docsDir, items + [f]).apps, l.namespace, l.app, l.docName) == l.id
  {
    assert (items + [f])[..|items|] == items;
    var l := Locate(docsDir, f).value;
    RecordAssigns(Group(docsDir, items), l, l.namespace, l.app, l.docName);
  }

  // ------------------------------------------------------------ the sidebar

  datatype Doc = Doc(id: string, caption: string)
  datatype AppCategory = AppCategory(caption: string, items: seq<Doc>)
  datatype Entry = Index(id: string) | Category(caption: string, items: seq<AppCategory>)

  /** Object.entries order: one doc item per doc name. */
  function DocItems(docs: Docs): (r: seq<Doc>)
    requires docs.Valid()
  {
    seq(|docs.keys|, i requires 0 <= i < |docs.keys| => Doc(docs.vals[i], docs.keys[i]))
  }

  /** One app category per app, in insertion order. */
  function AppItems(own: Apps): (r: seq<AppCategory>)
    requires AppsOk(own)
  {
    seq(|own.keys|, j requires 0 <= j < |own.keys| => AppCategory(own.keys[j], DocItems(own.vals[j])))
  }

  /** The id of the index document: path.join(docsDir, "README.md") with the
      docs directory, the first '/' and the first ".md" removed. */
  function IndexId(docsDir: string): string
  {
    ReplaceFirst(ReplaceFirst(ReplaceFirst(FilePath.Join2(docsDir, "README.md"), docsDir, ""), "/", ""), ".md", "")
  }

  /** One category per namespace, holding its apps. */
  function Categories(namespaces: seq<string>, apps: Table): (r: seq<Entry>)
    requires TableOk(apps)
    decreases |namespaces|
  {
    if namespaces == [] then []
    else
      var n := namespaces[|namespaces| - 1];
      Categories(namespaces[..|namespaces| - 1], apps) + [Category(n, AppItems(Lookup(apps, n, NoApps())))]
  }

  /** docsSidebar: the index first when it exists, then one category per namespace. */
  function Sidebar(docsDir: string, items: seq<string>, indexExists: bool): (r: seq<Entry>)
  {
    SidebarOf(Group(docsDir, items), IndexId(docsDir), indexExists)
  }

  /** The sidebar built from a grouping and the index document's id. */
  function SidebarOf(g: Grouping, indexId: string, indexExists: bool): (r: seq<Entry>)
    requires TableOk(g.apps)
  {
    (if indexExists then [Index(indexId)] else []) + Categories(g.namespaces, g.apps)
  }

  /** The index entry comes first exactly when `indexExists`, and then
      there is one category for each of `names`, captioned with it, in order. */
  ghost predicate Shaped(r: seq<Entry>, names: seq<string>, indexExists: bool)
  {
    var skip := if indexExists then 1 else 0;
    && (|r| > 0 && r[0].Index? <==> indexExists)
    && |r| == skip + |names|
    && forall k :: 0 <= k < |names| ==> r[skip + k].Category? && r[skip + k].caption == names[k]
  }

  /** The sidebar starts with the index exactly when the index file exists,
      and has one category per namespace, in order of first appearance. */
  lemma SidebarShape(docsDir: string, items: seq<string>, indexExists: bool)
    ensures Shaped(Sidebar(docsDir, items, indexExists), FirstOccurrences(Counted(docsDir, items)), indexExists)
  {
    var g := Group(docsDir, items);
    var names := FirstOccurrences(Counted(docsDir, items));
    GroupNamespaces(docsDir, items);
    SidebarOfShape(g, names, IndexId(docsDir), indexExists);
    assert Sidebar(docsDir, items, indexExists) == SidebarOf(g, IndexId(docsDir), indexExists);
  }

  lemma SidebarOfShape(g: Grouping, names: seq<string>, indexId: string, indexExists: bool)
    requires TableOk(g.apps) && g.namespaces == names
    ensures Shaped(SidebarOf(g, indexId, indexExists), names, indexExists)
  {
    var cats := Categories(g.namespaces, g.apps);
    CategoriesShape(g.namespaces, g.apps);
    if indexExists {
      AfterIndex(Index(indexId), cats, names);
    } else {
      assert SidebarOf(g, indexId, indexExists) == cats;
    }
  }

  /** Categories placed after an index entry. */
  lemma AfterIndex(index: Entry, cats: seq<Entry>, names: seq<string>)
    requires index.Index? && |cats| == |names|
    requires forall k :: 0 <= k < |names| ==> cats[k].Category? && cats[k].caption == names[k]
    ensures Shaped([index] + cats, names, true)
  {
  }

  lemma {:induction false} CategoriesShape(namespaces: seq<string>, apps: Table)
    requires TableOk(apps)
    ensures |Categories(namespaces, apps)| == |namespaces|
    ensures forall k :: 0 <= k < |namespaces| ==>
      Categories(namespaces, apps)[k].Category? && Categories(namespaces, apps)[k].caption == namespaces[k]
    decreases |namespaces|
  {
    if namespaces != [] {
      CategoriesShape(namespaces[..|namespaces| - 1], apps);
    }
  }

  /** The doc items of one app. */
  method DocEntries(docs: Docs) returns (r: seq<Doc>)
    requires docs.Valid()
    ensures r == DocItems(docs)
  {
    r := [];
    var i := 0;
    while i < |docs.keys|
      invariant 0 <= i <= |docs.keys|
      invariant r == DocItems(docs)[..i]
    {
      r := r + [Doc(docs.vals[i], docs.keys[i])];
      i := i + 1;
    }
  }

  /** The app categories of one namespace. */
  method AppEntries(own: Apps) returns (r: seq<AppCategory>)
    requires AppsOk(own)
    ensures r == AppItems(own)
  {
    r := [];
    var j := 0;
    while j < |own.keys|
      invariant 0 <= j <= |own.keys|
      invariant r == AppItems(own)[..j]
    {
      var docs := DocEntries(own.vals[j]);
      r := r + [AppCategory(own.keys[j], docs)];
      j := j + 1;
    }
  }

  /** The forEach over the files: the Set and the nested object. */
  method GroupFiles(docsDir: string, items: seq<string>) returns (namespaces: seq<string>, apps: Table)
    ensures Grouping(namespaces, apps) == Group(docsDir, items)
  {
    namespaces := [];
    apps := Assoc([], []);
    var i := 0;
    while i < |items|
      invariant 0 <= i <= |items|
      invariant Grouping(namespaces, apps) == Group(docsDir, items[..i])
    {
      GroupStep(docsDir, items, i);
      var loc := Locate(docsDir, items[i]);
      if loc.Some? {
        var l := loc.value;
        if l.namespace !in namespaces {
          namespaces := namespaces + [l.namespace];
        }
        var own := Lookup(apps, l.namespace, NoApps());
        var docs := Lookup(own, l.app, NoDocs());
        apps := Put(apps, l.namespace, Put(own, l.app, Put(docs, l.docName, l.id)));
      }
      i := i + 1;
    }
    assert items[..i] == items;
  }

  /** The forEach over the Set: one category per namespace. */
  method NamespaceEntries(namespaces: seq<string>, apps: Table) returns (r: seq<Entry>)
    requires TableOk(apps)
    ensures r == Categories(namespaces, apps)
  {
    r := [];
    var k := 0;
    while k < |namespaces|
      invariant 0 <= k <= |namespaces|
      invariant r == Categories(namespaces[..k], apps)
    {
      var items := AppEntries(Lookup(apps, namespaces[k], NoApps()));
      assert namespaces[..k + 1][..k] == namespaces[..k];
      r := r + [Category(namespaces[k], items)];
      k := k + 1;
    }
    assert namespaces[..k] == namespaces;
  }

  /** docsSidebar over the tree of the docs directory. */
  method DocsSidebar(docsDir: string, tree: seq<Node>, indexExists: bool) returns (sidebar: seq<Entry>)
    ensures sidebar == Sidebar(docsDir, Files(docsDir, tree), indexExists)
  {
    var items := WalkSync(docsDir, tree);
    var namespaces, apps := GroupFiles(docsDir, items);
    var indexId := IndexId(docsDir);
    sidebar := [];
    if indexExists {
      sidebar := sidebar + [Index(indexId)];
    }
    var categories := NamespaceEntries(namespaces, apps);
    sidebar := sidebar + categories;
    assert sidebar == SidebarOf(Grouping(namespaces, apps), indexId, indexExists);
  }
}
