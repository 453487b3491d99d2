/** internal/output/apps.go: listing apps and namespaces as a text table,
    JSON or YAML. What is printed is modelled as a value; the encoders and
    the table renderer are not part of this model. */
module Output {
  import opened Seqs
  import Catalog

  /** The payload handed to json.Marshal or yaml.Marshal. */
  datatype Doc = AppList(apps: seq<Catalog.App>) | NameList(names: seq<string>)

  /** One call's output: a single line, a table (header and rows), an
      encoded document, or nothing for an unknown output type. Messages and
      documents go through Go's builtin println, so to standard error; tables
      go to standard output. */
  datatype Printed =
    | Message(line: string)
    | Table(header: seq<string>, rows: seq<seq<string>>)
    | Encoded(format: string, doc: Doc)
    | Silent

  /** The namespaces of the apps, in list order and with repeats. */
  function NamespacesOf(apps: seq<Catalog.App>): (ns: seq<string>)
    ensures |ns| == |apps| && forall i :: 0 <= i < |apps| ==> ns[i] == apps[i].namespace
  {
    seq(|apps|, i requires 0 <= i < |apps| => apps[i].namespace)
  }

  /** stringInSlice: linear membership. */
  method StringInSlice(s: string, ss: seq<string>) returns (b: bool)
    ensures b <==> s in ss
  {
    var i := 0;
    while i < |ss|
      invariant 0 <= i <= |ss|
      invariant s !in ss[..i]
    {
      if s == ss[i] {
        return true;
      }
      i := i + 1;
    }
    assert ss[..i] == ss;
    return false;
  }

  /** The namespace collection loop shared by the three namespace printers:
      each namespace once, in order of first appearance. */
  method CollectNamespaces(apps: seq<Catalog.App>) returns (namespaces: seq<string>)
    ensures namespaces == FirstOccurrences(NamespacesOf(apps))
  {
    namespaces := [];
    var i := 0;
    while i < |apps|
      invariant 0 <= i <= |apps|
      invariant namespaces == FirstOccurrences(NamespacesOf(apps[..i]))
    {
      var seen := StringInSlice(apps[i].namespace, namespaces);
      FirstOccurrencesSpec(NamespacesOf(apps[..i]));
      assert NamespacesOf(apps[..i + 1]) == NamespacesOf(apps[..i]) + [apps[i].namespace];
      if !seen {
        namespaces := namespaces + [apps[i].namespace];
      }
      i := i + 1;
    }
    assert apps[..i] == apps;
  }

  /** The namespace listing names every app's namespace exactly once and
      nothing else, ordered by where each first appears. */
  lemma NamespaceListing(apps: seq<Catalog.App>)
    ensures var names := FirstOccurrences(NamespacesOf(apps));
      && Distinct(names)
      && (forall a :: a in apps ==> a.namespace in names)
      && (forall n :: n in names ==> exists a :: a in apps && a.namespace == n)
  {
    var ns := NamespacesOf(apps);
    FirstOccurrencesSpec(ns);
    forall a | a in apps ensures a.namespace in FirstOccurrences(ns) {
      var i :| 0 <= i < |apps| && apps[i] == a;
      assert ns[i] == a.namespace;
    }
    forall n | n in FirstOccurrences(ns) ensures exists a :: a in apps && a.namespace == n {
      var i :| 0 <= i < |ns| && ns[i] == n;
      assert apps[i] in apps;
    }
  }

  /** printAppsText: "No apps found" for an empty list; otherwise a table
      with namespace and name when no namespace is selected, else names only. */
  method AppsText(m: Catalog.Gman, apps: seq<Catalog.App>) returns (p: Printed)
    ensures |apps| == 0 ==> p == Message("No apps found")
    ensures |apps| > 0 && m.currentNamespace == "" ==>
      && p.Table? && p.header == ["Namespace", "Name"] && |p.rows| == |apps|
      && forall i :: 0 <= i < |apps| ==> p.rows[i] == [apps[i].namespace, apps[i].name]
    ensures |apps| > 0 && m.currentNamespace != "" ==>
      && p.Table? && p.header == ["Name"] && |p.rows| == |apps|
      && forall i :: 0 <= i < |apps| ==> p.rows[i] == [apps[i].name]
  {
    if |apps| == 0 {
      return Message("No apps found");
    }
    var withNamespace := m.currentNamespace == "";
    var rows: seq<seq<string>> := [];
    var i := 0;
    while i < |apps|
      invariant 0 <= i <= |apps| && |rows| == i
      invariant withNamespace ==> forall k :: 0 <= k < i ==> rows[k] == [apps[k].namespace, apps[k].name]
      invariant !withNamespace ==> forall k :: 0 <= k < i ==> rows[k] == [apps[k].name]
    {
      if withNamespace {
        rows := rows + [[apps[i].namespace, apps[i].name]];
      } else {
        rows := rows + [[apps[i].name]];
      }
      i := i + 1;
    }
    return Table(if withNamespace then ["Namespace", "Name"] else ["Name"], rows);
  }

  /** PrintApps: dispatch on the output type; an unknown type prints nothing. */
  method PrintApps(m: Catalog.Gman, apps: seq<Catalog.App>, output: string) returns (p: Printed)
    ensures output == "text" ==> (p == Message("No apps found") <==> |apps| == 0)
    ensures output == "text" && |apps| > 0 ==>
      && p.Table? && |p.rows| == |apps|
      && (p.header == ["Namespace", "Name"] <==> m.currentNamespace == "")
      && forall i :: 0 <= i < |apps| ==>
           p.rows[i] == if m.currentNamespace == "" then [apps[i].namespace, apps[i].name] else [apps[i].name]
    ensures output == "json" ==> p == Encoded("json", AppList(apps))
    ensures output == "yaml" ==> p == Encoded("yaml", AppList(apps))
    ensures output !in {"text", "json", "yaml"} ==> p == Silent
  {
    if output == "text" {
      p := AppsText(m, apps);
    } else if output == "json" {
      p := Encoded("json", AppList(apps));
    } else if output == "yaml" {
      p := Encoded("yaml", AppList(apps));
    } else {
      p := Silent;
    }
  }

  /** printNamespacesText: "No apps found" for an empty list, else a
      one-column table of the collected namespaces. */
  method NamespacesText(apps: seq<Catalog.App>) returns (p: Printed)
    ensures |apps| == 0 ==> p == Message("No apps found")
    ensures |apps| > 0 ==>
      var names := FirstOccurrences(NamespacesOf(apps));
      && p.Table? && p.header == ["Namespace"] && |p.rows| == |names|
      && forall i :: 0 <= i < |names| ==> p.rows[i] == [names[i]]
  {
    if |apps| == 0 {
      return Message("No apps found");
    }
    var namespaces := CollectNamespaces(apps);
    var rows: seq<seq<string>> := [];
    var i := 0;
    while i < |namespaces|
      invariant 0 <= i <= |namespaces| && |rows| == i
      invariant forall k :: 0 <= k < i ==> rows[k] == [namespaces[k]]
    {
      rows := rows + [[namespaces[i]]];
      i := i + 1;
    }
    return Table(["Namespace"], rows);
  }

  /** PrintNamespaces: dispatch on the output type. The encoded forms list
      the collected namespaces even for no apps; an unknown type prints nothing. */
  method PrintNamespaces(m: Catalog.Gman, apps: seq<Catalog.App>, output: string) returns (p: Printed)
    ensures output == "text" ==> (p == Message("No apps found") <==> |apps| == 0)
    ensures output == "text" && |apps| > 0 ==>
      var names := FirstOccurrences(NamespacesOf(apps));
      && p.Table? && p.header == ["Namespace"] && |p.rows| == |names|
      && forall i :: 0 <= i < |names| ==> p.rows[i] == [names[i]]
    ensures output == "json" ==> p == Encoded("json", NameList(FirstOccurrences(NamespacesOf(apps))))
    ensures output == "yaml" ==> p == Encoded("yaml", NameList(FirstOccurrences(NamespacesOf(apps))))
    ensures output !in {"text", "json", "yaml"} ==> p == Silent
  {
    if output == "text" {
      p := NamespacesText(apps);
    } else if output == "json" {
      var namespaces := CollectNamespaces(apps);
      p := Encoded("json", NameList(namespaces));
    } else if output == "yaml" {
      var namespaces := CollectNamespaces(apps);
      p := Encoded("yaml", NameList(namespaces));
    } else {
      p := Silent;
    }
  }
}
