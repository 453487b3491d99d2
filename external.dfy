/** The collaborators the core calls but does not implement: the file system,
    the network, URL parsing and regular expressions. Each is an oracle whose
    answers are inputs of the model; the process-wide flags are an object that
    callers pass explicitly. */
module External {
  import opened Wrappers

  newtype byte = x: int | 0 <= x < 256

  /** The result of os.Stat on one path; times are integers (nanoseconds since Go's zero time). */
  datatype Stat = Exists(modTime: int) | NotExist | StatError(msg: string)

  /** One call of filepath.Walk's callback: the path relative to the walk root,
      info.Name() and info.ModTime(), or the error Walk passes in. */
  datatype Visit = Visit(rel: string, name: string, modTime: int) | WalkError(msg: string)

  datatype FileSystem = FileSystem(
    stat: string -> Stat,
    readFile: string -> Result<seq<byte>>,
    /** The callbacks filepath.Walk makes for a root, in its (lexical) order. */
    walk: string -> seq<Visit>)

  /** An HTTP GET: failing before a response, failing while reading the body,
      or a response with status, body and Content-Type header. */
  datatype Fetch =
    | RequestFailed(msg: string)
    | BodyFailed(msg: string)
    | Response(status: int, body: seq<byte>, contentType: string)

  /** The result of url.Parse, reduced to the parts the core reads. */
  datatype Url = Url(hostname: string, path: string)

  datatype Net = Net(
    /** url.ParseRequestURI succeeds on the string. */
    parsesAsRequestUri: string -> bool,
    /** url.Parse */
    parse: string -> Option<Url>,
    /** GET of a URL (with the netrc credential for its host, if any);
        the flag says whether redirects are followed. */
    get: (string, bool) -> Fetch)

  datatype Regexp = Regexp(
    /** regexp.Compile succeeds on the pattern. */
    compiles: string -> bool,
    /** the compiled pattern (first argument) matches somewhere in the text. */
    matches: (string, string) -> bool)

  /** The oracles a lookup or search consults. */
  datatype Env = Env(fs: FileSystem, net: Net, rx: Regexp)

  /** Go's string(b) for a byte slice: one char per byte. */
  function BytesToString(b: seq<byte>): (s: string)
    ensures |s| == |b|
    ensures forall i :: 0 <= i < |b| ==> s[i] as int == b[i] as int
  {
    seq(|b|, i requires 0 <= i < |b| => (b[i] as int) as char)
  }

  /** The package-level variables `gman.OpenURLOnGetFailure`, `gman.ServerMode`
      and `release.OpenURLOnGetFailure`. */
  class Switches {
    var openURLOnGetFailure: bool
    var serverMode: bool
    var releaseOpenURLOnGetFailure: bool

    constructor ()
      ensures !openURLOnGetFailure && !serverMode && !releaseOpenURLOnGetFailure
    {
      openURLOnGetFailure := false;
      serverMode := false;
      releaseOpenURLOnGetFailure := false;
    }
  }
}
