/** pkg/gman/git.go: where a repository is mirrored, and whether an update
    clones it, pulls it or leaves it alone. Processes are run by a `run`
    oracle that answers each command with its error, if any. */
module Git {
  import opened Wrappers
  import opened Strings
  import opened External
  import FilePath
  import Catalog

  /** RepoDir: `src/<host>/<path without extension>`, or "" when the URL does not parse. */
  function RepoDir(repo: Catalog.Repo, net: Net): (d: string)
    ensures d == "" <==> net.parse(repo.url).None?
  {
    match net.parse(repo.url)
    case None => ""
    case Some(u) => FilePath.JoinPath(["src", u.hostname, FilePath.StripExt(u.path)])
  }

  /** A ".git" suffix is not part of the mirror directory. */
  lemma RepoDirDropsGit(repo: Catalog.Repo, net: Net, host: string, path: string)
    requires net.parse(repo.url) == Some(Url(host, path + ".git"))
    ensures RepoDir(repo, net) == FilePath.JoinPath(["src", host, path])
  {
    FilePath.StripGitSuffix(path);
  }

  // ------------------------------------------------------------ commands

  /** An exec.Command: its arguments and working directory ("" for the process's own). */
  datatype Command = Command(args: seq<string>, dir: string)

  function SubmoduleUpdate(localDir: string): Command
  {
    Command(["git", "submodule", "update", "--init", "--recursive"], localDir)
  }

  function CloneSteps(repo: Catalog.Repo, localDir: string): seq<Command>
  {
    [Command(["git", "clone", "-b", repo.branch, repo.url, localDir], ""), SubmoduleUpdate(localDir)]
  }

  function PullSteps(repo: Catalog.Repo, localDir: string): seq<Command>
  {
    [ Command(["git", "pull", "origin", repo.branch], localDir),
      Command(["git", "checkout", repo.branch], localDir),
      Command(["git", "reset", "--hard", "origin/" + repo.branch], localDir),
      SubmoduleUpdate(localDir) ]
  }

  /** Running commands one after another until one fails: the commands
      run, and the first error. */
  function RunAll(cmds: seq<Command>, run: Command -> Option<string>): (r: (seq<Command>, Option<string>))
    ensures r.0 <= cmds && (r.0 == [] <==> cmds == [])
    ensures forall i :: 0 <= i < |r.0| - 1 ==> run(r.0[i]).None?
    ensures r.1.None? <==> r.0 == cmds && forall i :: 0 <= i < |cmds| ==> run(cmds[i]).None?
    ensures r.1.Some? ==> r.1 == run(r.0[|r.0| - 1])
    decreases |cmds|
  {
    if cmds == [] then ([], None)
    else match run(cmds[0])
      case Some(e) => ([cmds[0]], Some(e))
      case None =>
        var rest := RunAll(cmds[1..], run);
        assert cmds == [cmds[0]] + cmds[1..];
        ([cmds[0]] + rest.0, rest.1)
  }

  /** A first command that succeeds is followed by the rest. */
  lemma RunAllCons(cmds: seq<Command>, run: Command -> Option<string>)
    requires cmds != [] && run(cmds[0]).None?
    ensures RunAll(cmds, run) == ([cmds[0]] + RunAll(cmds[1..], run).0, RunAll(cmds[1..], run).1)
  {
  }

  /** GitClone: clone, then update submodules; a failed clone is returned at once. */
  method GitClone(repo: Catalog.Repo, localDir: string, run: Command -> Option<string>)
    returns (ran: seq<Command>, err: Option<string>)
    ensures (ran, err) == RunAll(CloneSteps(repo, localDir), run)
  {
    var steps := CloneSteps(repo, localDir);
    ran := [steps[0]];
    err := run(steps[0]);
    if err.Some? {
      return;
    }
    ran := ran + [steps[1]];
    err := run(steps[1]);
    assert steps[1..][1..] == [];
  }

  /** GitPull: pull, checkout, hard reset to the remote branch, update
      submodules; the first failure is returned and nothing after it runs. */
  method GitPull(repo: Catalog.Repo, localDir: string, run: Command -> Option<string>)
    returns (ran: seq<Command>, err: Option<string>)
    ensures (ran, err) == RunAll(PullSteps(repo, localDir), run)
  {
    var steps := PullSteps(repo, localDir);
    assert steps[1..][1..] == steps[2..] && steps[2..][1..] == steps[3..] && steps[3..][1..] == [];
    ran := [steps[0]];
    err := run(steps[0]);
    if err.Some? {
      return;
    }
    RunAllCons(steps, run);
    ran := ran + [steps[1]];
    err := run(steps[1]);
    if err.Some? {
      return;
    }
    RunAllCons(steps[1..], run);
    ran := ran + [steps[2]];
    err := run(steps[2]);
    if err.Some? {
      assert RunAll(steps[2..], run) == ([steps[2]], err);
      assert ran == [steps[0]] + ([steps[1]] + [steps[2]]);
      return;
    }
    RunAllCons(steps[2..], run);
    ran := ran + [steps[3]];
    err := run(steps[3]);
    assert RunAll(steps[3..], run) == ([steps[3]], err);
    assert ran == [steps[0]] + ([steps[1]] + ([steps[2]] + [steps[3]]));
  }

  // ------------------------------------------------------------- policy

  /** LastUpdated: the modification time of .git/FETCH_HEAD. */
  function LastUpdated(localDir: string, fs: FileSystem): (r: Result<int>)
    ensures r.Ok? <==> fs.stat(FilePath.JoinPath([localDir, ".git", "FETCH_HEAD"])).Exists?
  {
    match fs.stat(FilePath.JoinPath([localDir, ".git", "FETCH_HEAD"]))
    case Exists(t) => Ok(t)
    case NotExist => Err("file does not exist")
    case StatError(m) => Err(m)
  }

  datatype Action = Clone | Pull | Leave

  /** The decision of GitUpdate. `last` is only consulted when the mirror
      exists and no update is forced; the zero time is 0. A pull is due when
      the timestamp is unreadable or zero, or when a positive interval has
      passed strictly before `now`. */
  function Decide(local: Stat, force: bool, last: Result<int>, interval: int, now: int): (a: Action)
    ensures a == Clone <==> local.NotExist?
    ensures a == Pull <==>
      !local.NotExist? &&
      (force || last.Err? || last.value == 0 || (interval > 0 && last.value + interval < now))
    ensures !local.NotExist? && !force && last.Ok? && last.value != 0 && interval <= 0 ==> a == Leave
  {
    if local.NotExist? then Clone
    else if force then Pull
    else if last.Err? then Pull
    else if last.value == 0 || (interval > 0 && last.value + interval < now) then Pull
    else Leave
  }

  /** A forced update never looks at the timestamp. */
  lemma ForceIgnoresTimestamp(local: Stat, l1: Result<int>, l2: Result<int>, interval: int, now: int)
    ensures Decide(local, true, l1, interval, now) == Decide(local, true, l2, interval, now)
  {
  }

  /** GitUpdate: clone a missing mirror, otherwise pull when due. */
  method GitUpdate(repo: Catalog.Repo, localDir: string, force: bool, interval: int,
                   fs: FileSystem, run: Command -> Option<string>, now: int)
    returns (ran: seq<Command>, err: Option<string>)
    ensures
      var action := Decide(fs.stat(localDir), force, LastUpdated(localDir, fs), interval, now);
      && (action == Clone ==> (ran, err) == RunAll(CloneSteps(repo, localDir), run))
      && (action == Pull ==> (ran, err) == RunAll(PullSteps(repo, localDir), run))
      && (action == Leave ==> ran == [] && err.None?)
  {
    if fs.stat(localDir).NotExist? {
      ran, err := GitClone(repo, localDir, run);
      return;
    }
    if force {
      ran, err := GitPull(repo, localDir, run);
      return;
    }
    var last := LastUpdated(localDir, fs);
    if last.Err? {
      ran, err := GitPull(repo, localDir, run);
      return;
    }
    if last.value == 0 || (interval > 0 && last.value + interval < now) {
      ran, err := GitPull(repo, localDir, run);
      return;
    }
    return [], None;
  }
}
