/** pkg/gman/config.go: reading config.yaml from the configuration directory
    and laying its optional settings over the session's. */
module Config {
  import opened Wrappers
  import opened External
  import FilePath
  import Catalog

  /** ConfigFile: every setting is optional (a nil pointer when absent);
      `repos` maps a name or URL to a repository, or to nil. Durations are
      nanoseconds. */
  datatype ConfigFile = ConfigFile(
    interval: Option<int>,
    namespace: Option<string>,
    open: Option<bool>,
    notify: Option<bool>,
    pager: Option<string>,
    repo: Option<string>,
    render: Option<bool>,
    tldr: Option<bool>,
    repos: map<string, Option<Catalog.Repo>>,
    web: Option<bool>,
    webAddr: Option<string>,
    webDir: Option<string>)

  /** A file that sets nothing. */
  function Blank(): ConfigFile
  {
    ConfigFile(None, None, None, None, None, None, None, None, map[], None, None, None)
  }

  /** `config.Repos[key]`: nil both for a missing key and for a null entry. */
  function Entry(c: ConfigFile, key: string): (r: Option<Catalog.Repo>)
    ensures r.Some? <==> key in c.repos && c.repos[key].Some?
  {
    if key in c.repos then c.repos[key] else None
  }

  /** yaml.Unmarshal and json.Unmarshal into a ConfigFile. */
  datatype Parsers = Parsers(
    yaml: seq<byte> -> Result<ConfigFile>,
    json: seq<byte> -> Result<ConfigFile>)

  /** YAML first; JSON only when YAML fails, and then JSON's error is the one reported. */
  function Parse(b: seq<byte>, p: Parsers): (r: Result<ConfigFile>)
    ensures r.Ok? <==> p.yaml(b).Ok? || p.json(b).Ok?
    ensures p.yaml(b).Ok? ==> r == p.yaml(b)
    ensures p.yaml(b).Err? ==> r == p.json(b)
  {
    match p.yaml(b)
    case Ok(c) => Ok(c)
    case Err(_) => p.json(b)
  }

  /** The path of the configuration file. */
  function ConfigPath(configDir: string): (f: string)
    ensures configDir != "" ==> f != ""
  {
    FilePath.Join2(configDir, "config.yaml")
  }

  /** What LoadConfig finds: an error, no file at all, or a parsed file. A
      stat error other than non-existence does not stop it. */
  function Read(configDir: string, fs: FileSystem, p: Parsers): (r: Result<Option<ConfigFile>>)
    ensures configDir == "" ==> r == Err("config dir not set")
    ensures configDir != "" && fs.stat(configDir).NotExist? ==> r == Err("config dir does not exist")
    ensures r == Ok(None) <==>
      configDir != "" && !fs.stat(configDir).NotExist? && fs.stat(ConfigPath(configDir)).NotExist?
    ensures r.Ok? && r.value.Some? ==>
      && fs.readFile(ConfigPath(configDir)).Ok?
      && Parse(fs.readFile(ConfigPath(configDir)).value, p) == Ok(r.value.value)
    ensures (configDir != "" && !fs.stat(configDir).NotExist? && !fs.stat(ConfigPath(configDir)).NotExist? &&
             fs.readFile(ConfigPath(configDir)).Err?) ==> r == Err(fs.readFile(ConfigPath(configDir)).msg)
  {
    if configDir == "" then Err("config dir not set")
    else if fs.stat(configDir).NotExist? then Err("config dir does not exist")
    else
      var file := ConfigPath(configDir);
      if fs.stat(file).NotExist? then Ok(None)
      else match fs.readFile(file)
        case Err(m) => Err(m)
        case Ok(b) =>
          match Parse(b, p)
          case Err(m) => Err(m)
          case Ok(c) => Ok(Some(c))
  }

  // ------------------------------------------------------------ the repo

  /** The first rule: a current repository whose URL is a key of `repos`
      is replaced by that entry. */
  function ByUrl(cur: Option<Catalog.Repo>, c: ConfigFile): (r: Option<Catalog.Repo>)
    ensures cur.Some? ==> r.Some?
    ensures r != cur ==> cur.Some? && cur.value.url != "" && r == Entry(c, cur.value.url)
  {
    if cur.Some? && cur.value.url != "" && Entry(c, cur.value.url).Some? then Entry(c, cur.value.url)
    else cur
  }

  /** The result of the repository rules as written, where a nil
      dereference is a distinct result. */
  datatype Resolved = Resolved(repo: Option<Catalog.Repo>) | NilDeref

  /** As written: `g.Repo == nil || g.Repo.URL == "" && ...` groups as
      `nil || (empty && named)`, so with no repository at all `*config.Repo`
      is read whether or not the file sets `repo`. */
  function RepoRulesAsWritten(cur: Option<Catalog.Repo>, c: ConfigFile): (r: Resolved)
    ensures r == NilDeref <==> ByUrl(cur, c).None? && c.repo.None?
  {
    var after := ByUrl(cur, c);
    if after.None? then
      if c.repo.None? then NilDeref else Resolved(Entry(c, c.repo.value))
    else if after.value.url == "" && c.repo.Some? && Entry(c, c.repo.value).Some? then
      Resolved(Entry(c, c.repo.value))
    else Resolved(after)
  }

  /** A session without a repository and a file without `repo` reach the nil dereference. */
  lemma NoRepoNoNameCrashes(c: ConfigFile)
    requires c.repo.None?
    ensures RepoRulesAsWritten(None, c) == NilDeref
  {
  }

  /** The evidently intended rules: a repository that is missing or has an
      empty URL is taken from the entry the file's `repo` names, when there is one. */
  function RepoRules(cur: Option<Catalog.Repo>, c: ConfigFile): (r: Option<Catalog.Repo>)
    ensures cur.Some? ==> r.Some?
    ensures r == cur || r == ByUrl(cur, c) || (c.repo.Some? && r == Entry(c, c.repo.value) && r.Some?)
    ensures c.repo.Some? && Entry(c, c.repo.value).Some? && (ByUrl(cur, c).None? || ByUrl(cur, c).value.url == "")
      ==> r == Entry(c, c.repo.value)
    ensures (c.repo.None? || Entry(c, c.repo.value).None?) ==> r == ByUrl(cur, c)
  {
    var after := ByUrl(cur, c);
    if (after.None? || after.value.url == "") && c.repo.Some? && Entry(c, c.repo.value).Some? then
      Entry(c, c.repo.value)
    else after
  }

  /** Wherever the code as written does not crash, it agrees with the intended rules. */
  lemma RepoRulesAgree(cur: Option<Catalog.Repo>, c: ConfigFile)
    ensures RepoRulesAsWritten(cur, c).Resolved? ==> RepoRulesAsWritten(cur, c).repo == RepoRules(cur, c)
  {
  }

  /** A file without repositories keeps the current one. */
  lemma NoReposKeepsRepo(cur: Option<Catalog.Repo>, c: ConfigFile)
    requires c.repos == map[]
    ensures RepoRules(cur, c) == cur
  {
  }

  // ------------------------------------------------------------ settings

  /** The part of the session state LoadConfig may change. */
  datatype Settings = Settings(
    repo: Option<Catalog.Repo>,
    openURLOnGetFailure: bool,
    releaseOpenURLOnGetFailure: bool,
    notifyOnNewRelease: bool,
    updateInterval: int,
    render: bool,
    tldr: bool,
    currentNamespace: string,
    pager: string,
    webMode: bool,
    webAddr: string,
    webDir: string)

  function Snapshot(g: Catalog.Gman, sw: Switches): Settings
    reads g, sw
  {
    Settings(g.repo, sw.openURLOnGetFailure, sw.releaseOpenURLOnGetFailure, g.notifyOnNewRelease,
             g.updateInterval, g.render, g.tldr, g.currentNamespace, g.pager, g.webMode, g.webAddr, g.webDir)
  }

  /** A present setting, or the current value. */
  function Pick<T>(o: Option<T>, current: T): (r: T)
    ensures o.Some? ==> r == o.value
    ensures o.None? ==> r == current
  {
    match o
    case Some(v) => v
    case None => current
  }

  /** The session after a parsed file: the repository rules, then every
      present setting overwriting its field; `open` sets both flags. */
  function Overlay(s: Settings, c: ConfigFile): (r: Settings)
    ensures r.repo == RepoRules(s.repo, c)
    ensures c.open.Some? ==> r.openURLOnGetFailure == c.open.value == r.releaseOpenURLOnGetFailure
  {
    Settings(
      RepoRules(s.repo, c),
      Pick(c.open, s.openURLOnGetFailure),
      Pick(c.open, s.releaseOpenURLOnGetFailure),
      Pick(c.notify, s.notifyOnNewRelease),
      Pick(c.interval, s.updateInterval),
      Pick(c.render, s.render),
      Pick(c.tldr, s.tldr),
      Pick(c.namespace, s.currentNamespace),
      Pick(c.pager, s.pager),
      Pick(c.web, s.webMode),
      Pick(c.webAddr, s.webAddr),
      Pick(c.webDir, s.webDir))
  }

  /** Each present setting overwrites its field and each absent one keeps it. */
  lemma OverlayFields(s: Settings, c: ConfigFile)
    ensures var r := Overlay(s, c);
      && (c.open.None? ==> r.openURLOnGetFailure == s.openURLOnGetFailure && r.releaseOpenURLOnGetFailure == s.releaseOpenURLOnGetFailure)
      && r.notifyOnNewRelease == (if c.notify.Some? then c.notify.value else s.notifyOnNewRelease)
      && r.updateInterval == (if c.interval.Some? then c.interval.value else s.updateInterval)
      && r.render == (if c.render.Some? then c.render.value else s.render)
      && r.tldr == (if c.tldr.Some? then c.tldr.value else s.tldr)
      && r.currentNamespace == (if c.namespace.Some? then c.namespace.value else s.currentNamespace)
      && r.pager == (if c.pager.Some? then c.pager.value else s.pager)
      && r.webMode == (if c.web.Some? then c.web.value else s.webMode)
      && r.webAddr == (if c.webAddr.Some? then c.webAddr.value else s.webAddr)
      && r.webDir == (if c.webDir.Some? then c.webDir.value else s.webDir)
  {
  }

  /** A file that sets nothing changes nothing. */
  lemma BlankChangesNothing(s: Settings)
    ensures Overlay(s, Blank()) == s
  {
  }

  /** Loading the same file twice leaves every setting but the repository
      as one load does. */
  lemma OverlayTwice(s: Settings, c: ConfigFile)
    ensures Overlay(Overlay(s, c), c).(repo := RepoRules(s.repo, c)) == Overlay(s, c)
  {
  }

  /** Of two files loaded one after the other, every setting but the
      repository takes the later file's value when it has one, else the
      earlier file's, else the session's; `open` does so for both flags. */
  lemma LaterFileWins(s: Settings, c1: ConfigFile, c2: ConfigFile)
    ensures var r := Overlay(Overlay(s, c1), c2);
      && r.openURLOnGetFailure == Pick(c2.open, Pick(c1.open, s.openURLOnGetFailure))
      && r.releaseOpenURLOnGetFailure == Pick(c2.open, Pick(c1.open, s.releaseOpenURLOnGetFailure))
      && r.notifyOnNewRelease == Pick(c2.notify, Pick(c1.notify, s.notifyOnNewRelease))
      && r.updateInterval == Pick(c2.interval, Pick(c1.interval, s.updateInterval))
      && r.render == Pick(c2.render, Pick(c1.render, s.render))
      && r.tldr == Pick(c2.tldr, Pick(c1.tldr, s.tldr))
      && r.currentNamespace == Pick(c2.namespace, Pick(c1.namespace, s.currentNamespace))
      && r.pager == Pick(c2.pager, Pick(c1.pager, s.pager))
      && r.webMode == Pick(c2.web, Pick(c1.web, s.webMode))
      && r.webAddr == Pick(c2.webAddr, Pick(c1.webAddr, s.webAddr))
      && r.webDir == Pick(c2.webDir, Pick(c1.webDir, s.webDir))
  {
  }

  // ---------------------------------------------------------- LoadConfig

  /** `open` sets both packages' open-on-failure flags. */
  method ApplySwitches(sw: Switches, c: ConfigFile)
    modifies sw`openURLOnGetFailure, sw`releaseOpenURLOnGetFailure
    ensures sw.openURLOnGetFailure == Pick(c.open, old(sw.openURLOnGetFailure))
    ensures sw.releaseOpenURLOnGetFailure == Pick(c.open, old(sw.releaseOpenURLOnGetFailure))
  {
    sw.openURLOnGetFailure := Pick(c.open, sw.openURLOnGetFailure);
    sw.releaseOpenURLOnGetFailure := Pick(c.open, sw.releaseOpenURLOnGetFailure);
  }

  /** The repository rules, then the update and rendering settings. */
  method ApplyUpdates(g: Catalog.Gman, c: ConfigFile)
    modifies g`repo, g`notifyOnNewRelease, g`updateInterval, g`render, g`tldr
    ensures g.repo == RepoRules(old(g.repo), c)
    ensures g.notifyOnNewRelease == Pick(c.notify, old(g.notifyOnNewRelease))
    ensures g.updateInterval == Pick(c.interval, old(g.updateInterval))
    ensures g.render == Pick(c.render, old(g.render))
    ensures g.tldr == Pick(c.tldr, old(g.tldr))
  {
    g.repo := RepoRules(g.repo, c);
    g.notifyOnNewRelease := Pick(c.notify, g.notifyOnNewRelease);
    g.updateInterval := Pick(c.interval, g.updateInterval);
    g.render := Pick(c.render, g.render);
    g.tldr := Pick(c.tldr, g.tldr);
  }

  /** The namespace, pager and web settings. */
  method ApplyDisplay(g: Catalog.Gman, c: ConfigFile)
    modifies g`currentNamespace, g`pager, g`webMode, g`webAddr, g`webDir
    ensures g.currentNamespace == Pick(c.namespace, old(g.currentNamespace))
    ensures g.pager == Pick(c.pager, old(g.pager))
    ensures g.webMode == Pick(c.web, old(g.webMode))
    ensures g.webAddr == Pick(c.webAddr, old(g.webAddr))
    ensures g.webDir == Pick(c.webDir, old(g.webDir))
  {
    g.currentNamespace := Pick(c.namespace, g.currentNamespace);
    g.pager := Pick(c.pager, g.pager);
    g.webMode := Pick(c.web, g.webMode);
    g.webAddr := Pick(c.webAddr, g.webAddr);
    g.webDir := Pick(c.webDir, g.webDir);
  }

  /** The overlay of one parsed file, field by field. */
  method Apply(g: Catalog.Gman, sw: Switches, c: ConfigFile)
    modifies g`repo, g`notifyOnNewRelease, g`updateInterval, g`render, g`tldr, g`currentNamespace
    modifies g`pager, g`webMode, g`webAddr, g`webDir
    modifies sw`openURLOnGetFailure, sw`releaseOpenURLOnGetFailure
    ensures Snapshot(g, sw) == Overlay(old(Snapshot(g, sw)), c)
  {
    ApplyUpdates(g, c);
    ApplyDisplay(g, c);
    ApplySwitches(sw, c);
  }

  /** LoadConfig: on an error or a missing file nothing changes; otherwise
      the session becomes the overlay of the parsed file. */
  method LoadConfig(g: Catalog.Gman, sw: Switches, fs: FileSystem, p: Parsers) returns (err: Option<string>)
    modifies g`repo, g`notifyOnNewRelease, g`updateInterval, g`render, g`tldr, g`currentNamespace
    modifies g`pager, g`webMode, g`webAddr, g`webDir
    modifies sw`openURLOnGetFailure, sw`releaseOpenURLOnGetFailure
    ensures Read(g.configDir, fs, p).Err? ==>
      err == Some(Read(g.configDir, fs, p).msg) && Snapshot(g, sw) == old(Snapshot(g, sw))
    ensures Read(g.configDir, fs, p) == Ok(None) ==> err.None? && Snapshot(g, sw) == old(Snapshot(g, sw))
    ensures Read(g.configDir, fs, p).Ok? && Read(g.configDir, fs, p).value.Some? ==>
      err.None? && Snapshot(g, sw) == Overlay(old(Snapshot(g, sw)), Read(g.configDir, fs, p).value.value)
  {
    if g.configDir == "" {
      return Some("config dir not set");
    }
    if fs.stat(g.configDir).NotExist? {
      return Some("config dir does not exist");
    }
    var file := FilePath.Join2(g.configDir, "config.yaml");
    if fs.stat(file).NotExist? {
      return None;
    }
    var b := fs.readFile(file);
    if b.Err? {
      return Some(b.msg);
    }
    var parsed := Parse(b.value, p);
    if parsed.Err? {
      return Some(parsed.msg);
    }
    assert Read(g.configDir, fs, p) == Ok(Some(parsed.value));
    Apply(g, sw, parsed.value);
    return None;
  }
}
