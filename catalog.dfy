/** pkg/gman/gman.go: the in-memory catalog of apps (namespace → apps) and
    releases, its loading from the `docs/` and `releases/` trees, lookups,
    and the concurrent searches, here drained one result at a time in an
    arbitrary order. */
module Catalog {
  import opened Wrappers
  import opened Strings
  import opened External
  import FilePath
  import Sorting
  import Utils
  import Releases

  /** A repository to mirror: its URL and branch. */
  datatype Repo = Repo(url: string, branch: string)

  /** One app: `docs/<namespace>/<name>/README.md`, with the optional TLDR.md
      and examples directory next to it. */
  datatype App = App(
    namespace: string,
    name: string,
    dir: string,
    readmeFile: Option<string>,
    shortFile: Option<string>,
    examplesDir: Option<string>)
  {
    /** App.Readme */
    function Readme(env: Env, serverMode: bool, openOnFailure: bool): (c: Utils.Content)
      ensures readmeFile.None? ==> c == Utils.Content("", Some("readme file not set"), false)
      ensures readmeFile.Some? ==> c == FileContent(readmeFile.value, env, serverMode, openOnFailure)
    {
      if readmeFile.None? then Utils.Content("", Some("readme file not set"), false)
      else FileContent(readmeFile.value, env, serverMode, openOnFailure)
    }

    /** App.TLDR */
    function TLDR(env: Env, serverMode: bool, openOnFailure: bool): (c: Utils.Content)
      ensures shortFile.None? ==> c == Utils.Content("", Some("tldr file not set"), false)
      ensures shortFile.Some? ==> c == FileContent(shortFile.value, env, serverMode, openOnFailure)
    {
      if shortFile.None? then Utils.Content("", Some("tldr file not set"), false)
      else FileContent(shortFile.value, env, serverMode, openOnFailure)
    }
  }

  /** What App.Readme and App.TLDR do with an existing file pointer: literal
      text comes back as read, with no fetch; a text that is only a URL is
      replaced by the remote document (links rewritten, images embedded in
      server mode). A failed fetch returns the file's own text together with
      the error, and only then is OpenURL called (when asked for). */
  function FileContent(file: string, env: Env, serverMode: bool, openOnFailure: bool): (c: Utils.Content)
    ensures c.urlOpened ==> openOnFailure && c.err.Some?
    ensures env.fs.readFile(file).Err? ==> c == Utils.Content("", Some(env.fs.readFile(file).msg), false)
    ensures env.fs.readFile(file).Ok? ==>
      var text := BytesToString(env.fs.readFile(file).value);
      && (!Utils.IsOnlyUrl(text, env.net) ==> c == Utils.Content(text, None, false))
      && (Utils.IsOnlyUrl(text, env.net) ==>
            var res := Utils.GetRemote(text, serverMode, env.net);
            && (res.err.Some? ==> c == Utils.Content(text, res.err, openOnFailure))
            && (res.err.None? ==> c == Utils.Content(res.data, None, false)))
  {
    match env.fs.readFile(file)
    case Err(msg) => Utils.Content("", Some(msg), false)
    case Ok(b) =>
      var text := BytesToString(b);
      if !Utils.IsOnlyUrl(text, env.net) then Utils.Content(text, None, false)
      else
        var res := Utils.GetRemote(text, serverMode, env.net);
        if res.err.Some? then Utils.Content(text, res.err, openOnFailure)
        else Utils.Content(res.data, None, false)
  }

  /** A file that is not a pointer is returned as it is whatever the network does. */
  lemma LiteralNeedsNoFetch(file: string, env: Env, net': Net, serverMode: bool, openOnFailure: bool)
    requires env.fs.readFile(file).Ok?
    requires !Utils.IsOnlyUrl(BytesToString(env.fs.readFile(file).value), env.net)
    requires net'.parsesAsRequestUri == env.net.parsesAsRequestUri
    ensures FileContent(file, env.(net := net'), serverMode, openOnFailure)
         == FileContent(file, env, serverMode, openOnFailure)
    ensures FileContent(file, env, serverMode, openOnFailure).text
         == BytesToString(env.fs.readFile(file).value)
  {
  }

  // ------------------------------------------------------------ ordering

  /** The orders sort.Slice is given: Go's `<` on names and on namespaces. */
  predicate NameLe(x: App, y: App) { LexLe(x.name, y.name) }
  predicate NamespaceLe(x: App, y: App) { LexLe(x.namespace, y.namespace) }

  lemma AppOrdersArePreorders()
    ensures Sorting.TotalPreorder(NameLe)
    ensures Sorting.TotalPreorder(NamespaceLe)
  {
    LexLeTotalPreorder();
  }

  /** `order` enumerates the keys of `apps`, each once: the order in which
      this run's `range` over the map visits them. */
  ghost predicate KeyOrder(apps: map<string, seq<App>>, order: seq<string>)
  {
    && (forall i, j :: 0 <= i < j < |order| ==> order[i] != order[j])
    && (forall k :: k in order <==> k in apps)
  }

  /** The apps of all namespaces, concatenated in the order of `order`. */
  function Flatten(apps: map<string, seq<App>>, order: seq<string>): (r: seq<App>)
    requires forall k :: k in order ==> k in apps
    ensures forall i :: 0 <= i < |order| ==> multiset(apps[order[i]]) <= multiset(r)
    decreases |order|
  {
    if order == [] then []
    else apps[order[0]] + Flatten(apps, order[1..])
  }

  /** Reordering the apps of one namespace reorders the whole listing. */
  lemma {:induction false} FlattenUpdate(apps: map<string, seq<App>>, order: seq<string>, ns: string, p: seq<App>)
    requires forall k :: k in order ==> k in apps
    requires ns in apps && multiset(p) == multiset(apps[ns])
    ensures multiset(Flatten(apps[ns := p], order)) == multiset(Flatten(apps, order))
    decreases |order|
  {
    if order != [] {
      FlattenUpdate(apps, order[1..], ns, p);
    }
  }

  /** The apps stored under `ns`, nil (empty) when there are none. */
  function Members(apps: map<string, seq<App>>, ns: string): seq<App>
  {
    if ns in apps then apps[ns] else []
  }

  // ------------------------------------------------------------- lookups

  /** The first element of `s` called `target`, if any. */
  function FirstNamed<T>(s: seq<T>, nameOf: T -> string, target: string): (r: Option<T>)
    ensures r.Some? <==> exists i :: 0 <= i < |s| && nameOf(s[i]) == target
    ensures r.Some? ==> exists i :: 0 <= i < |s| && s[i] == r.value && nameOf(s[i]) == target &&
                                   (forall j :: 0 <= j < i ==> nameOf(s[j]) != target)
    decreases |s|
  {
    if s == [] then None
    else if nameOf(s[0]) == target then Some(s[0])
    else
      var r := FirstNamed(s[1..], nameOf, target);
      assert r.Some? ==> exists i :: 1 <= i < |s| && s[i] == r.value && nameOf(s[i]) == target &&
                                     (forall j :: 0 <= j < i ==> nameOf(s[j]) != target) by {
        if r.Some? {
          var i :| 0 <= i < |s| - 1 && s[1..][i] == r.value && nameOf(s[1..][i]) == target &&
                   (forall j :: 0 <= j < i ==> nameOf(s[1..][j]) != target);
          assert s[i + 1] == r.value;
          assert forall j :: 1 <= j < i + 1 ==> nameOf(s[j]) == nameOf(s[1..][j - 1]);
        }
      }
      r
  }

  /** The `for ... range` loop with an early return that GetApp and GetRelease run. */
  method FindNamed<T>(s: seq<T>, nameOf: T -> string, target: string) returns (r: Option<T>)
    ensures r == FirstNamed(s, nameOf, target)
  {
    var i := 0;
    while i < |s|
      invariant 0 <= i <= |s|
      invariant FirstNamed(s, nameOf, target) == FirstNamed(s[i..], nameOf, target)
    {
      assert s[i..][1..] == s[i + 1..];
      if nameOf(s[i]) == target {
        return Some(s[i]);
      }
      i := i + 1;
    }
    return None;
  }

  /** appsSliceContains / releaseSliceContains: some element has the same name. */
  method SliceHasName<T>(s: seq<T>, x: T, nameOf: T -> string) returns (b: bool)
    ensures b <==> HasNamed(s, nameOf, nameOf(x))
  {
    var i := 0;
    while i < |s|
      invariant 0 <= i <= |s|
      invariant forall j :: 0 <= j < i ==> nameOf(s[j]) != nameOf(x)
    {
      if nameOf(s[i]) == nameOf(x) {
        return true;
      }
      i := i + 1;
    }
    return false;
  }

  // -------------------------------------------------------------- search

  /** What a search worker reports for one item; `Panicked` is a panic in
      regexp.MustCompile, which takes the whole process down. */
  datatype Outcome = Found | NotFound | Failed(msg: string) | Panicked

  /** One content check: an error fails the item, a match finds it. */
  function Probe(c: Utils.Content, search: string, rx: Regexp): (o: Outcome)
    ensures o.Failed? <==> c.err.Some?
    ensures o == Found <==> c.err.None? && Utils.StringSearch(c.text, search, rx) == Utils.Match
    ensures o == Panicked <==> c.err.None? && Utils.StringSearch(c.text, search, rx) == Utils.Panic
  {
    if c.err.Some? then Failed(c.err.value)
    else match Utils.StringSearch(c.text, search, rx)
      case Match => Found
      case NoMatch => NotFound
      case Panic => Panicked
  }

  /** searchApp: the name first, then the readme, then the TLDR; the first
      check that fails or matches decides. */
  function SearchApp(app: App, search: string, env: Env, serverMode: bool, openOnFailure: bool): (o: Outcome)
    ensures Contains(app.name, search) ==> o == Found
    ensures !Contains(app.name, search) && app.readmeFile.Some? &&
            Probe(app.Readme(env, serverMode, openOnFailure), search, env.rx) != NotFound ==>
      o == Probe(app.Readme(env, serverMode, openOnFailure), search, env.rx)
    ensures o == NotFound <==>
      && !Contains(app.name, search)
      && (app.readmeFile.None? || Probe(app.Readme(env, serverMode, openOnFailure), search, env.rx) == NotFound)
      && (app.shortFile.None? || Probe(app.TLDR(env, serverMode, openOnFailure), search, env.rx) == NotFound)
  {
    if Contains(app.name, search) then Found
    else
      var fromReadme :=
        if app.readmeFile.Some? then Probe(app.Readme(env, serverMode, openOnFailure), search, env.rx)
        else NotFound;
      if fromReadme != NotFound then fromReadme
      else if app.shortFile.Some? then Probe(app.TLDR(env, serverMode, openOnFailure), search, env.rx)
      else NotFound
  }

  /** searchRelease: the name first, then the readme. */
  function SearchRelease(r: Releases.Release, search: string, env: Env, openOnFailure: bool): (o: Outcome)
    ensures Contains(r.name, search) ==> o == Found
    ensures o == NotFound <==>
      !Contains(r.name, search) &&
      (r.readmeFile.None? || Probe(r.Readme(env.fs, env.net, openOnFailure), search, env.rx) == NotFound)
    ensures r.readmeFile.None? && !Contains(r.name, search) ==> o == NotFound
  {
    if Contains(r.name, search) then Found
    else if r.readmeFile.Some? then Probe(r.Readme(env.fs, env.net, openOnFailure), search, env.rx)
    else NotFound
  }

  function AppName(a: App): string { a.name }
  function ReleaseName(r: Releases.Release): string { r.name }

  /** The first release with the name, in list order. */
  function FirstRelease(rs: seq<Releases.Release>, name: string): Option<Releases.Release>
  {
    FirstNamed(rs, ReleaseName, name)
  }

  /** What each app search worker computes; OpenURL is switched off for searches. */
  function AppCheck(search: string, env: Env, serverMode: bool): App -> Outcome
  {
    (a: App) => SearchApp(a, search, env, serverMode, false)
  }

  function ReleaseCheck(search: string, env: Env): Releases.Release -> Outcome
  {
    (x: Releases.Release) => SearchRelease(x, search, env, false)
  }

  ghost predicate AnyIs<T>(jobs: seq<T>, check: T -> Outcome, o: Outcome)
  {
    exists x :: x in jobs && check(x) == o
  }

  /** The drained result: only found items, no two with the same name, and
      every found item represented by one with its name. */
  ghost predicate Gathered<T>(jobs: seq<T>, check: T -> Outcome, nameOf: T -> string, found: seq<T>)
  {
    OnlyFound(jobs, check, found) && UniqueNames(nameOf, found) && Covers(jobs, check, nameOf, found)
  }

  ghost predicate OnlyFound<T>(jobs: seq<T>, check: T -> Outcome, found: seq<T>)
  {
    forall i :: 0 <= i < |found| ==> found[i] in jobs && check(found[i]) == Found
  }

  ghost predicate UniqueNames<T>(nameOf: T -> string, found: seq<T>)
  {
    forall i, j :: 0 <= i < j < |found| ==> nameOf(found[i]) != nameOf(found[j])
  }

  ghost predicate HasNamed<T>(found: seq<T>, nameOf: T -> string, name: string)
  {
    exists i :: 0 <= i < |found| && nameOf(found[i]) == name
  }

  ghost predicate Covers<T>(jobs: seq<T>, check: T -> Outcome, nameOf: T -> string, found: seq<T>)
  {
    forall x :: x in jobs && check(x) == Found ==> HasNamed(found, nameOf, nameOf(x))
  }

  lemma GatheredNothing<T>(jobs: seq<T>, check: T -> Outcome, nameOf: T -> string, found: seq<T>)
    requires Gathered(jobs, check, nameOf, found)
    ensures found == [] <==> !AnyIs(jobs, check, Found)
  {
    if found != [] {
      assert found[0] in jobs && check(found[0]) == Found;
    }
    if AnyIs(jobs, check, Found) {
      var x :| x in jobs && check(x) == Found;
      assert HasNamed(found, nameOf, nameOf(x));
    }
  }

  ghost predicate NoPanic<T>(done: seq<T>, check: T -> Outcome)
  {
    forall x :: x in done ==> check(x) != Panicked
  }

  /** One drained result: a found item is appended unless its name is already there. */
  lemma GatheredStep<T>(done: seq<T>, check: T -> Outcome, nameOf: T -> string, found: seq<T>, job: T, seen: bool)
    requires Gathered(done, check, nameOf, found)
    requires seen <==> HasNamed(found, nameOf, nameOf(job))
    ensures Gathered(done + [job], check, nameOf, if check(job) == Found && !seen then found + [job] else found)
  {
    if check(job) == Found && !seen {
      AppendedStep(done, check, nameOf, found, job);
    } else {
      KeptStep(done, check, nameOf, found, job);
    }
  }

  lemma AppendedStep<T>(done: seq<T>, check: T -> Outcome, nameOf: T -> string, found: seq<T>, job: T)
    requires Gathered(done, check, nameOf, found)
    requires check(job) == Found && !HasNamed(found, nameOf, nameOf(job))
    ensures Gathered(done + [job], check, nameOf, found + [job])
  {
    var found' := found + [job];
    assert OnlyFound(done + [job], check, found');
    assert UniqueNames(nameOf, found') by {
      forall i, j | 0 <= i < j < |found'| ensures nameOf(found'[i]) != nameOf(found'[j]) {
        if j == |found| {
          assert found'[i] == found[i];
        }
      }
    }
    forall x | x in done + [job] && check(x) == Found ensures HasNamed(found', nameOf, nameOf(x)) {
      if x in done {
        var i :| 0 <= i < |found| && nameOf(found[i]) == nameOf(x);
        assert found'[i] == found[i];
      } else {
        assert found'[|found|] == job;
      }
    }
  }

  lemma KeptStep<T>(done: seq<T>, check: T -> Outcome, nameOf: T -> string, found: seq<T>, job: T)
    requires Gathered(done, check, nameOf, found)
    requires check(job) == Found ==> HasNamed(found, nameOf, nameOf(job))
    ensures Gathered(done + [job], check, nameOf, found)
  {
    assert OnlyFound(done + [job], check, found) by {
      forall i | 0 <= i < |found| ensures found[i] in done + [job] {
        assert found[i] in done;
      }
    }
  }

  lemma TakeOut<T>(pending: seq<T>, p: nat, done: seq<T>)
    requires p < |pending|
    ensures multiset(pending[..p] + pending[p + 1..]) + multiset(done + [pending[p]])
         == multiset(pending) + multiset(done)
  {
    assert pending == pending[..p] + [pending[p]] + pending[p + 1..];
  }

  /** The result-draining loop of SearchApps and SearchReleases. The workers
      hand back results in an order the model does not fix: each round takes
      any job not yet drained. A panicking job ends everything. */
  method Drain<T>(jobs: seq<T>, check: T -> Outcome, nameOf: T -> string) returns (r: Option<seq<T>>, ghost drained: nat)
    ensures r.None? <==> AnyIs(jobs, check, Panicked)
    ensures r.Some? ==> drained == |jobs| && Gathered(jobs, check, nameOf, r.value)
  {
    var pending := jobs;
    ghost var done: seq<T> := [];
    var found: seq<T> := [];
    drained := 0;
    while pending != []
      invariant multiset(pending) + multiset(done) == multiset(jobs)
      invariant drained == |done|
      invariant NoPanic(done, check)
      invariant Gathered(done, check, nameOf, found)
      decreases |pending|
    {
      var p :| 0 <= p < |pending|;
      var job := pending[p];
      TakeOut(pending, p, done);
      assert job in multiset(jobs);
      if check(job) == Panicked {
        return None, drained + 1;
      }
      var seen := SliceHasName(found, job, nameOf);
      GatheredStep(done, check, nameOf, found, job, seen);
      if check(job) == Found && !seen {
        found := found + [job];
      }
      pending := pending[..p] + pending[p + 1..];
      done := done + [job];
      drained := drained + 1;
    }
    SameMembers(done, jobs, check, nameOf, found);
    r := Some(found);
  }

  /** The predicates above only look at which items occur. */
  /** What `Drain` promises about a list holds of any reordering of it. */
  lemma DrainedReordered<T>(listed: seq<T>, own: seq<T>, check: T -> Outcome, nameOf: T -> string, r: Option<seq<T>>)
    requires multiset(listed) == multiset(own)
    requires r.None? <==> AnyIs(listed, check, Panicked)
    requires r.Some? ==> Gathered(listed, check, nameOf, r.value)
    ensures r.None? <==> AnyIs(own, check, Panicked)
    ensures r.Some? ==> Gathered(own, check, nameOf, r.value)
    ensures r.Some? ==> (r.value == [] <==> !AnyIs(own, check, Found))
  {
    SameMembers(listed, own, check, nameOf, if r.Some? then r.value else []);
    if r.Some? {
      GatheredNothing(own, check, nameOf, r.value);
    }
  }

  lemma SameMembers<T>(j1: seq<T>, j2: seq<T>, check: T -> Outcome, nameOf: T -> string, found: seq<T>)
    requires multiset(j1) == multiset(j2)
    ensures Gathered(j1, check, nameOf, found) <==> Gathered(j2, check, nameOf, found)
    ensures forall o :: AnyIs(j1, check, o) <==> AnyIs(j2, check, o)
  {
    assert forall x :: x in j1 <==> x in multiset(j1);
    assert forall x :: x in j2 <==> x in multiset(j2);
  }

  // ----------------------------------------------------------- the catalog

  /** The Gman struct: session settings, the local mirror and the catalog. */
  class Gman {
    var repo: Option<Repo>
    var configDir: string
    var localDir: string
    var pager: string
    /** time.Duration, in nanoseconds */
    var updateInterval: int
    var currentNamespace: string
    var forceUpdate: bool
    var notifyOnNewRelease: bool
    var render: bool
    var tldr: bool
    var webMode: bool
    var webAddr: string
    var webDir: string
    var apps: map<string, seq<App>>
    var releases: seq<Releases.Release>

    /** A zero-valued Gman, as `&gman.Gman{}` gives. */
    constructor ()
      ensures repo.None? && configDir == "" && localDir == "" && pager == ""
      ensures updateInterval == 0 && currentNamespace == ""
      ensures !forceUpdate && !notifyOnNewRelease && !render && !tldr && !webMode
      ensures webAddr == "" && webDir == "" && apps == map[] && releases == []
    {
      repo := None;
      configDir := "";
      localDir := "";
      pager := "";
      updateInterval := 0;
      currentNamespace := "";
      forceUpdate := false;
      notifyOnNewRelease := false;
      render := false;
      tldr := false;
      webMode := false;
      webAddr := "";
      webDir := "";
      apps := map[];
      releases := [];
    }

    /** ListApps: with no namespace, a new list of every app sorted by name;
        with one, that namespace's stored slice, sorted in place by name and
        then (unstably) by namespace, so only a permutation is promised. */
    method ListApps(ns: string, order: seq<string>) returns (r: seq<App>)
      requires KeyOrder(apps, order)
      modifies this`apps
      ensures ns == "" ==>
        && apps == old(apps)
        && multiset(r) == multiset(Flatten(apps, order))
        && Sorting.SortedBy(r, NameLe)
      ensures ns != "" && ns !in old(apps) ==> apps == old(apps) && r == []
      ensures ns != "" && ns in old(apps) ==>
        && apps == old(apps)[ns := r]
        && multiset(r) == multiset(old(apps)[ns])
        && Sorting.SortedBy(r, NamespaceLe)
    {
      AppOrdersArePreorders();
      if ns == "" {
        var all := Flatten(apps, order);
        var a := new App[|all|](k requires 0 <= k < |all| => all[k]);
        assert a[..] == all;
        Sorting.SortBy(a, NameLe);
        return a[..];
      }
      if ns !in apps {
        return [];
      }
      var own := apps[ns];
      var a := new App[|own|](k requires 0 <= k < |own| => own[k]);
      assert a[..] == own;
      Sorting.SortBy(a, NameLe);
      Sorting.SortBy(a, NamespaceLe);
      r := a[..];
      apps := apps[ns := r];
    }

    /** SearchApps: switch off OpenURL, search the listed apps, keep the found
        ones once per name; when a namespace gives nothing, search them all. */
    method SearchApps(ns: string, search: string, order: seq<string>, env: Env, sw: Switches)
      returns (r: Option<seq<App>>)
      requires KeyOrder(apps, order)
      modifies this`apps, sw`openURLOnGetFailure
      decreases if ns == "" then 0 else 1
      ensures !sw.openURLOnGetFailure
      ensures KeyOrder(apps, order)
      ensures multiset(Flatten(apps, order)) == multiset(Flatten(old(apps), order))
      ensures ns == "" || ns !in old(apps) ==> apps == old(apps)
      ensures ns != "" && ns in old(apps) ==>
        && ns in apps && apps == old(apps)[ns := apps[ns]]
        && multiset(apps[ns]) == multiset(old(apps)[ns])
      ensures
        var check := AppCheck(search, env, sw.serverMode);
        var all := Flatten(old(apps), order);
        var own := if ns == "" then all else Members(old(apps), ns);
        && (r.None? <==>
              AnyIs(own, check, Panicked) ||
              (ns != "" && !AnyIs(own, check, Found) && AnyIs(all, check, Panicked)))
        && (r.Some? && (ns == "" || AnyIs(own, check, Found)) ==> Gathered(own, check, AppName, r.value))
        && (r.Some? && ns != "" && !AnyIs(own, check, Found) ==> Gathered(all, check, AppName, r.value))
    {
      sw.openURLOnGetFailure := false;
      var check := AppCheck(search, env, sw.serverMode);
      ghost var all := Flatten(apps, order);
      ghost var own := if ns == "" then all else Members(apps, ns);
      var listed := ListApps(ns, order);
      if ns != "" && ns in old(apps) {
        FlattenUpdate(old(apps), order, ns, listed);
      }
      assert multiset(listed) == multiset(own);
      var found, _ := Drain(listed, check, AppName);
      DrainedReordered(listed, own, check, AppName, found);
      if found == Some([]) && ns != "" {
        ghost var mid := apps;
        found := SearchApps("", search, order, env, sw);
        SameMembers(Flatten(mid, order), all, check, AppName, if found.Some? then found.value else []);
      }
      r := found;
    }

    /** SearchReleases: switch off the release package's OpenURL, search the
        loaded releases, keep the found ones once per name. */
    method SearchReleases(search: string, env: Env, sw: Switches) returns (r: seq<Releases.Release>, crashed: bool)
      modifies sw`releaseOpenURLOnGetFailure
      ensures !sw.releaseOpenURLOnGetFailure
      ensures
        var check := ReleaseCheck(search, env);
        && (crashed <==> AnyIs(releases, check, Panicked))
        && (!crashed ==> Gathered(releases, check, ReleaseName, r))
      ensures releases == [] ==> r == [] && !crashed
    {
      sw.releaseOpenURLOnGetFailure := false;
      if releases == [] {
        return [], false;
      }
      var found, _ := Drain(releases, ReleaseCheck(search, env), ReleaseName);
      if found.None? {
        return [], true;
      }
      return found.value, false;
    }

    // ------------------------------------------------------------ loading

    /** LoadApps: errors for an unset or missing local directory; otherwise
        walks `<local>/docs`, appending to the existing catalog (never
        clearing it), and returns the walk's error, if any, keeping what was
        added before it. */
    method LoadApps(fs: FileSystem) returns (err: Option<string>)
      modifies this`apps
      ensures localDir == "" ==> err == Some("local dir not set") && apps == old(apps)
      ensures localDir != "" && fs.stat(localDir).NotExist? ==>
        err == Some("local dir does not exist") && apps == old(apps)
      ensures localDir != "" && !fs.stat(localDir).NotExist? ==>
        var root := FilePath.Join2(localDir, "docs");
        (apps, err) == Indexed(old(apps), root, fs.walk(root), fs)
    {
      if localDir == "" {
        return Some("local dir not set");
      }
      if fs.stat(localDir).NotExist? {
        return Some("local dir does not exist");
      }
      var root := FilePath.Join2(localDir, "docs");
      var visits := fs.walk(root);
      var i := 0;
      assert visits[0..] == visits;
      while i < |visits|
        invariant 0 <= i <= |visits|
        invariant Indexed(apps, root, visits[i..], fs) == Indexed(old(apps), root, visits, fs)
      {
        var v := visits[i];
        IndexedStep(apps, root, visits, i, fs);
        if v.WalkError? {
          return Some(v.msg);
        }
        var app := AppAt(root, v, fs);
        if app.Some? {
          apps := apps[app.value.namespace := Members(apps, app.value.namespace) + [app.value]];
        }
        i := i + 1;
      }
      return None;
    }

    /** Gman.LoadReleases: an unset local directory is an error; a missing
        local or releases directory leaves the releases as they were. */
    method LoadReleases(fs: FileSystem, now: int) returns (err: Option<string>)
      modifies this`releases
      ensures localDir == "" ==> err == Some("local dir not set") && releases == old(releases)
      ensures localDir != "" && (fs.stat(localDir).NotExist? ||
                                 fs.stat(FilePath.Join2(localDir, "releases")).NotExist?) ==>
        err.None? && releases == old(releases)
      ensures localDir != "" && !fs.stat(localDir).NotExist? ==>
        var dir := FilePath.Join2(localDir, "releases");
        var root := FilePath.Clean(dir);
        !fs.stat(dir).NotExist? ==>
          match Releases.Walked(root, fs.walk(root), now)
          case Err(m) => err == Some(m) && releases == old(releases)
          case Ok(found) => err.None? && Releases.Arranged(found, releases)
    {
      if localDir == "" {
        return Some("local dir not set");
      }
      if fs.stat(localDir).NotExist? {
        return None;
      }
      var dir := FilePath.Join2(localDir, "releases");
      if fs.stat(dir).NotExist? {
        return None;
      }
      var rs := Releases.LoadReleases(dir, fs, now);
      if rs.Err? {
        return Some(rs.msg);
      }
      releases := rs.value;
      return None;
    }

    /** GetRelease: loads the releases afresh and returns the first with the name
        in their loaded order; after a semver re-sort, releases sharing a name are
        in no fixed order, so any one of them may be returned. */
    method GetRelease(name: string, fs: FileSystem, now: int) returns (r: Result<Releases.Release>)
      ensures localDir == "" ==> r == Err("local dir not set")
      ensures localDir != "" && fs.stat(FilePath.Join2(localDir, "releases")).NotExist? ==>
        r == Err("local dir does not exist")
      ensures localDir != "" && !fs.stat(FilePath.Join2(localDir, "releases")).NotExist? ==>
        var root := FilePath.Clean(FilePath.Join2(localDir, "releases"));
        match Releases.Walked(root, fs.walk(root), now)
        case Err(m) => r == Err(m)
        case Ok(found) =>
          && (r.Ok? ==> r.value in found && r.value.name == name)
          && (r.Err? <==> !Releases.NameIn(found, name))
          && (r.Err? ==> r.msg == "release not found")
          && (r.Ok? && !Releases.Resorted(found) ==> FirstRelease(found, name) == Some(r.value))
    {
      if localDir == "" {
        return Err("local dir not set");
      }
      var dir := FilePath.Join2(localDir, "releases");
      if fs.stat(dir).NotExist? {
        return Err("local dir does not exist");
      }
      var rs := Releases.LoadReleases(dir, fs, now);
      if rs.Err? {
        return Err(rs.msg);
      }
      ghost var root := FilePath.Clean(dir);
      ghost var found := Releases.Walked(root, fs.walk(root), now).value;
      assert multiset(rs.value) == multiset(found);
      var hit := FindNamed(rs.value, ReleaseName, name);
      FoundInPermutation(found, rs.value, name, hit);
      if hit.None? {
        return Err("release not found");
      }
      return Ok(hit.value);
    }

    /** A lookup in a reordering of the loaded releases finds a release of
        that name exactly when the loaded releases have one. */
    static lemma FoundInPermutation(found: seq<Releases.Release>, rs: seq<Releases.Release>, name: string,
                                    hit: Option<Releases.Release>)
      requires multiset(rs) == multiset(found)
      requires hit == FirstNamed(rs, ReleaseName, name)
      ensures hit.Some? ==> hit.value in found && hit.value.name == name
      ensures hit.None? <==> !Releases.NameIn(found, name)
    {
      assert forall x :: x in rs <==> x in found by {
        assert forall x :: x in rs <==> x in multiset(rs);
        assert forall x :: x in found <==> x in multiset(found);
      }
      if hit.None? {
        assert forall k :: 0 <= k < |found| ==> found[k] in rs;
      } else {
        assert hit.value in found;
        var k :| 0 <= k < |found| && found[k] == hit.value;
      }
    }

    /** GetApp: with a namespace, only that namespace is searched; without
        one, "default" first and then every namespace. */
    method GetApp(ns: string, name: string, order: seq<string>) returns (r: Result<App>)
      requires KeyOrder(apps, order)
      ensures ns != "" ==> r == OrNotFound(FirstNamed(Members(apps, ns), AppName, name))
      ensures ns == "" ==>
        r == OrNotFound(
          if FirstNamed(Members(apps, "default"), AppName, name).Some?
          then FirstNamed(Members(apps, "default"), AppName, name)
          else FirstNamed(Flatten(apps, order), AppName, name))
    {
      var nameOf := AppName;
      if ns == "" {
        var hit := FindNamed(Members(apps, "default"), nameOf, name);
        if hit.Some? {
          return Ok(hit.value);
        }
        var i := 0;
        while i < |order|
          invariant 0 <= i <= |order|
          invariant FirstNamed(Flatten(apps, order), nameOf, name) == FirstNamed(Flatten(apps, order[i..]), nameOf, name)
        {
          assert order[i..][1..] == order[i + 1..];
          FirstNamedAppend(apps[order[i]], Flatten(apps, order[i + 1..]), nameOf, name);
          hit := FindNamed(apps[order[i]], nameOf, name);
          if hit.Some? {
            return Ok(hit.value);
          }
          i := i + 1;
        }
        return Err("app not found");
      }
      var hit := FindNamed(Members(apps, ns), nameOf, name);
      return OrNotFound(hit);
    }
  }

  function OrNotFound(o: Option<App>): (r: Result<App>)
    ensures r.Ok? <==> o.Some?
    ensures o.Some? ==> r.value == o.value
    ensures o.None? ==> r.msg == "app not found"
  {
    if o.Some? then Ok(o.value) else Err("app not found")
  }

  lemma {:induction false} FirstNamedAppend<T>(s: seq<T>, t: seq<T>, nameOf: T -> string, target: string)
    ensures FirstNamed(s + t, nameOf, target) ==
      if FirstNamed(s, nameOf, target).Some? then FirstNamed(s, nameOf, target) else FirstNamed(t, nameOf, target)
    decreases |s|
  {
    if s != [] {
      assert (s + t)[1..] == s[1..] + t;
      FirstNamedAppend(s[1..], t, nameOf, target);
    } else {
      assert s + t == t;
    }
  }

  // ---------------------------------------------------------- the walk rule

  /** The app a walk callback records: for a README.md (any letter case) at
      least two segments deep, namespace and name are the first two segments;
      TLDR.md and `examples` are recorded when they exist beside it. */
  function AppAt(root: string, v: Visit, fs: FileSystem): (r: Option<App>)
    requires v.Visit?
    ensures r.Some? <==> EqualFold(v.name, "README.md") && |Split(v.rel, '/')| >= 2
    ensures r.Some? ==>
      var path := FilePath.Join2(root, v.rel);
      var dir := FilePath.Dir(path);
      && r.value.namespace == Split(v.rel, '/')[0]
      && r.value.name == Split(v.rel, '/')[1]
      && r.value.dir == dir
      && r.value.readmeFile == Some(path)
      && (r.value.shortFile.Some? <==> fs.stat(FilePath.Join2(dir, "TLDR.md")).Exists?)
      && (r.value.shortFile.Some? ==> r.value.shortFile.value == FilePath.Join2(dir, "TLDR.md"))
      && (r.value.examplesDir.Some? <==> fs.stat(FilePath.Join2(dir, "examples")).Exists?)
      && (r.value.examplesDir.Some? ==> r.value.examplesDir.value == FilePath.Join2(dir, "examples"))
  {
    var parts := Split(v.rel, '/');
    if !EqualFold(v.name, "README.md") || |parts| < 2 then None
    else
      var path := FilePath.Join2(root, v.rel);
      var dir := FilePath.Dir(path);
      var short := FilePath.Join2(dir, "TLDR.md");
      var examples := FilePath.Join2(dir, "examples");
      Some(App(parts[0], parts[1], dir, Some(path),
               if fs.stat(short).Exists? then Some(short) else None,
               if fs.stat(examples).Exists? then Some(examples) else None))
  }

  /** Every stored app sits under its own namespace. */
  ghost predicate Keyed(apps: map<string, seq<App>>)
  {
    forall ns, i :: ns in apps && 0 <= i < |apps[ns]| ==> apps[ns][i].namespace == ns
  }

  /** `b` keeps every namespace of `a` and every app list of `a` as a prefix. */
  ghost predicate Extends(a: map<string, seq<App>>, b: map<string, seq<App>>)
  {
    forall ns :: ns in a ==> ns in b && a[ns] <= b[ns]
  }

  function AddApp(apps: map<string, seq<App>>, root: string, v: Visit, fs: FileSystem): (r: map<string, seq<App>>)
    requires v.Visit?
    ensures Extends(apps, r)
    ensures Keyed(apps) ==> Keyed(r)
  {
    var a := AppAt(root, v, fs);
    if a.None? then apps else Appended(apps, a.value)
  }

  /** `g.Apps[namespace] = append(g.Apps[namespace], app)` */
  function Appended(apps: map<string, seq<App>>, a: App): (r: map<string, seq<App>>)
    ensures Extends(apps, r)
    ensures Keyed(apps) ==> Keyed(r)
    ensures a.namespace in r && r[a.namespace] == Members(apps, a.namespace) + [a]
  {
    apps[a.namespace := Members(apps, a.namespace) + [a]]
  }

  /** One walk callback: an error stops the walk, a visit adds its app, if any. */
  lemma IndexedStep(apps: map<string, seq<App>>, root: string, vs: seq<Visit>, i: nat, fs: FileSystem)
    requires i < |vs|
    ensures vs[i].WalkError? ==> Indexed(apps, root, vs[i..], fs) == (apps, Some(vs[i].msg))
    ensures vs[i].Visit? ==>
      var a := AppAt(root, vs[i], fs);
      Indexed(apps, root, vs[i..], fs) ==
        Indexed(if a.None? then apps else apps[a.value.namespace := Members(apps, a.value.namespace) + [a.value]],
                root, vs[i + 1..], fs)
  {
    assert vs[i..][0] == vs[i] && vs[i..][1..] == vs[i + 1..];
  }

  /** What LoadApps leaves behind: the catalog after the callbacks up to the
      first walk error, and that error. */
  function Indexed(apps: map<string, seq<App>>, root: string, vs: seq<Visit>, fs: FileSystem)
    : (r: (map<string, seq<App>>, Option<string>))
    ensures r.1.Some? <==> exists k :: 0 <= k < |vs| && vs[k].WalkError?
    ensures Extends(apps, r.0)
    ensures Keyed(apps) ==> Keyed(r.0)
    decreases |vs|
  {
    if vs == [] then (apps, None)
    else if vs[0].WalkError? then (apps, Some(vs[0].msg))
    else Indexed(AddApp(apps, root, vs[0], fs), root, vs[1..], fs)
  }
}
