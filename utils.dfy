/** internal/utils/utils.go: pointer detection, search matching, image detection,
    the two link-rewriting passes and remote fetching. */
module Utils {
  import opened Wrappers
  import opened Strings
  import opened External
  import FilePath

  // ---------------------------------------------------------------- pointers

  /** IsOnlyUrl: a single line whose trimmed text parses as a request URI. */
  predicate IsOnlyUrl(s: string, net: Net)
  {
    |Split(s, '\n')| <= 1 && net.parsesAsRequestUri(TrimSpace(s))
  }

  /** A pointer is exactly a newline-free string whose trimmed text parses:
      any newline, even a trailing one, makes it literal content. */
  lemma IsOnlyUrlSpec(s: string, net: Net)
    ensures IsOnlyUrl(s, net) <==> '\n' !in s && net.parsesAsRequestUri(TrimSpace(s))
  {
    SplitMany(s, '\n');
  }

  // ------------------------------------------------------------------ search

  /** The outcome of StringSearch; `Panic` is regexp.MustCompile's panic. */
  datatype Verdict = Match | NoMatch | Panic

  /** StringSearch: a plain substring test first; only when it fails is the
      search string compiled as a regular expression. */
  function StringSearch(s: string, search: string, rx: Regexp): (v: Verdict)
    ensures Contains(s, search) ==> v == Match
    ensures v == Panic <==> !Contains(s, search) && !rx.compiles(search)
    ensures v == Match <==> Contains(s, search) || (rx.compiles(search) && rx.matches(search, s))
  {
    if Contains(s, search) then Match
    else if !rx.compiles(search) then Panic
    else if rx.matches(search, s) then Match
    else NoMatch
  }

  // ------------------------------------------------------------------ images

  const ImageExtensions: seq<string> := [".png", ".jpg", ".jpeg", ".gif", ".svg"]

  /** fileIsImage: the extension is one of the five listed, compared exactly. */
  predicate FileIsImage(f: string)
  {
    FilePath.Ext(f) in ImageExtensions
  }

  /** Any name ending in one of the listed extensions is an image. */
  lemma ImageSuffixIsImage(s: string, i: nat)
    requires i < |ImageExtensions|
    ensures FileIsImage(s + ImageExtensions[i])
  {
    var e := ImageExtensions[i];
    assert e[0] == '.' && '.' !in e[1..] && '/' !in e[1..];
    FilePath.ExtOfSuffix(s, e);
  }

  /** The test is case-sensitive: upper-case extensions are not images. */
  lemma UpperCaseIsNotImage(s: string)
    ensures !FileIsImage(s + ".PNG")
    ensures !FileIsImage(s + ".JPG")
  {
    FilePath.ExtOfSuffix(s, ".PNG");
    FilePath.ExtOfSuffix(s, ".JPG");
  }

  function Base64Digit(n: nat): char
    requires n < 64
  {
    if n < 26 then ('A' as int + n) as char
    else if n < 52 then ('a' as int + n - 26) as char
    else if n < 62 then ('0' as int + n - 52) as char
    else if n == 62 then '+' else '/'
  }

  predicate IsBase64Char(c: char)
  {
    'A' <= c <= 'Z' || 'a' <= c <= 'z' || '0' <= c <= '9' || c == '+' || c == '/' || c == '='
  }

  /** base64.StdEncoding.EncodeToString: each 3 bytes become 4 digits, padded with '='. */
  function Base64(b: seq<byte>): string
    decreases |b|
  {
    if |b| == 0 then ""
    else if |b| == 1 then
      [Base64Digit(b[0] as int / 4), Base64Digit(b[0] as int % 4 * 16), '=', '=']
    else if |b| == 2 then
      [Base64Digit(b[0] as int / 4), Base64Digit(b[0] as int % 4 * 16 + b[1] as int / 16),
       Base64Digit(b[1] as int % 16 * 4), '=']
    else
      [Base64Digit(b[0] as int / 4), Base64Digit(b[0] as int % 4 * 16 + b[1] as int / 16),
       Base64Digit(b[1] as int % 16 * 4 + b[2] as int / 64), Base64Digit(b[2] as int % 64)]
      + Base64(b[3..])
  }

  lemma DigitIsBase64(n: nat)
    requires n < 64
    ensures IsBase64Char(Base64Digit(n))
  {
  }

  /** The first four characters of a group of at least 3 bytes, then the rest. */
  lemma Base64Group(b: seq<byte>)
    requires |b| >= 3
    ensures |Base64(b)| == 4 + |Base64(b[3..])|
    ensures forall i :: 0 <= i < 4 ==> IsBase64Char(Base64(b)[i])
    ensures forall i :: 4 <= i < |Base64(b)| ==> Base64(b)[i] == Base64(b[3..])[i - 4]
  {
    DigitIsBase64(b[0] as int / 4);
    DigitIsBase64(b[0] as int % 4 * 16 + b[1] as int / 16);
    DigitIsBase64(b[1] as int % 16 * 4 + b[2] as int / 64);
    DigitIsBase64(b[2] as int % 64);
  }

  /** The encoding is 4 characters per started group of 3 bytes, all from the alphabet. */
  lemma {:induction false} Base64Shape(b: seq<byte>)
    ensures |Base64(b)| == 4 * ((|b| + 2) / 3)
    ensures forall i :: 0 <= i < |Base64(b)| ==> IsBase64Char(Base64(b)[i])
    decreases |b|
  {
    if |b| == 1 {
      DigitIsBase64(b[0] as int / 4);
      DigitIsBase64(b[0] as int % 4 * 16);
    } else if |b| == 2 {
      DigitIsBase64(b[0] as int / 4);
      DigitIsBase64(b[0] as int % 4 * 16 + b[1] as int / 16);
      DigitIsBase64(b[1] as int % 16 * 4);
    } else if |b| >= 3 {
      Base64Shape(b[3..]);
      Base64Group(b);
      assert (|b| + 2) / 3 == (|b[3..]| + 2) / 3 + 1;
      forall i | 4 <= i < |Base64(b)| ensures IsBase64Char(Base64(b)[i]) {
        assert Base64(b)[i] == Base64(b[3..])[i - 4];
      }
    }
  }

  /** The inline form of an image: "data:<content type>;base64,<encoded body>". */
  function DataUri(contentType: string, body: seq<byte>): (r: string)
    ensures HasPrefix(r, "data:" + contentType + ";base64,")
  {
    "data:" + contentType + ";base64," + Base64(body)
  }

  /** What GetRemote and getRemoteImageContent return: the text and the error, if any. */
  datatype Remote = Remote(data: string, err: Option<string>)

  /** What the Readme and TLDR lookups return: the text, the error if any, and
      whether OpenURL was called on the pointer after a failed fetch. */
  datatype Content = Content(text: string, err: Option<string>, urlOpened: bool)

  predicate IsSuccess(status: int)
  {
    200 <= status <= 299
  }

  function StatusError(status: int): string
  {
    "get error: " + Itoa(status)
  }

  /** getRemoteImageContent: fetch (following redirects) and encode as a data URI;
      a non-2xx status is an error reported alongside the encoded body. */
  function RemoteImageContent(u: string, net: Net): (r: Remote)
    ensures r.err.None? <==>
      net.parse(TrimSpace(u)).Some? &&
      net.get(TrimSpace(u), true).Response? && IsSuccess(net.get(TrimSpace(u), true).status)
    ensures net.parse(TrimSpace(u)).Some? && net.get(TrimSpace(u), true).Response? ==>
      var res := net.get(TrimSpace(u), true);
      r.data == DataUri(res.contentType, res.body) &&
      (!IsSuccess(res.status) ==> r.err == Some(StatusError(res.status)))
  {
    var t := TrimSpace(u);
    if net.parse(t).None? then Remote("", Some("url parse error"))
    else match net.get(t, true)
      case RequestFailed(msg) => Remote("", Some(msg))
      case BodyFailed(msg) => Remote("", Some(msg))
      case Response(status, body, ct) =>
        Remote(DataUri(ct, body), if IsSuccess(status) then None else Some(StatusError(status)))
  }

  // -------------------------------------------------------- link rewriting

  const LinkOpen: string := "]("
  const ImageOpen: string := "<img src=\""

  /** Index of the first `c` in `s`, or |s|. */
  function IndexOfChar(s: string, c: char): (k: nat)
    ensures k <= |s|
    ensures k < |s| ==> s[k] == c
    ensures forall i :: 0 <= i < k ==> s[i] != c
  {
    if s == [] then 0 else if s[0] == c then 0 else 1 + IndexOfChar(s[1..], c)
  }

  /** What the greedy `(\.\.\/)*` leaves for the second group: leading "../"
      are dropped as long as something remains. */
  function StripParentDirs(c: string): (p: string)
    ensures |c| > 0 ==> |p| > 0
    ensures HasSuffix(c, p)
    ensures HasPrefix(p, "../") ==> p == "../"
    decreases |c|
  {
    if |c| > 3 && c[..3] == "../" then StripParentDirs(c[3..]) else c
  }

  /** The second groups of all matches of `open(\.\.\/)*([^close]+)close`, found
      leftmost first and without overlap, as regexp.FindAllStringSubmatch does for
      `\]\((\.\.\/)*([^\)]+)\)` and `<img src="(\.\.\/)*([^\"]+)"`. */
  function FindTargets(s: string, open: string, close: char): (ps: seq<string>)
    requires |open| > 0
    ensures forall i :: 0 <= i < |ps| ==>
      |ps[i]| > 0 && close !in ps[i] && (HasPrefix(ps[i], "../") ==> ps[i] == "../")
    decreases |s|
  {
    if |s| < |open| then []
    else if s[..|open|] == open && 0 < IndexOfChar(s[|open|..], close) < |s| - |open| then
      var rest := s[|open|..];
      var k := IndexOfChar(rest, close);
      var p := StripParentDirs(rest[..k]);
      assert close !in p by {
        assert forall j :: 0 <= j < |p| ==> p[j] == rest[..k][k - |p| + j];
      }
      [p] + FindTargets(rest[k + 1..], open, close)
    else FindTargets(s[1..], open, close)
  }

  /** What one match does to the data. */
  function RewriteStep(u: string, data: string, p: string, embedImages: bool, net: Net): string
  {
    if HasPrefix(p, "#") || IsOnlyUrl(p, net) then data
    else if FileIsImage(p) && embedImages then
      var img := RemoteImageContent(u + "/" + p, net);
      if img.err.Some? then data else ReplaceAll(data, p, img.data)
    else ReplaceAll(data, p, u + "/" + p)
  }

  /** The matches applied one after the other, in order. */
  function RewriteTargets(u: string, data: string, ps: seq<string>, embedImages: bool, net: Net): string
    decreases |ps|
  {
    if ps == [] then data
    else RewriteTargets(u, RewriteStep(u, data, ps[0], embedImages, net), ps[1..], embedImages, net)
  }

  /** rewriteRelativePaths as a value: the Markdown-link pass over the data, then
      the img-src pass over what the first pass produced. */
  function Relinked(u: string, data: string, embedImages: bool, net: Net): string
  {
    var afterLinks := RewriteTargets(u, data, FindTargets(data, LinkOpen, ')'), embedImages, net);
    RewriteTargets(u, afterLinks, FindTargets(afterLinks, ImageOpen, '"'), embedImages, net)
  }

  /** rewriteRelativePaths, reassigning `data` match by match over the two passes. */
  method RewriteRelativePaths(u: string, data: string, embedImages: bool, net: Net) returns (out: string)
    ensures out == Relinked(u, data, embedImages, net)
  {
    out := data;
    var matches := FindTargets(out, LinkOpen, ')');
    for i := 0 to |matches|
      invariant RewriteTargets(u, out, matches[i..], embedImages, net)
             == RewriteTargets(u, data, matches, embedImages, net)
    {
      assert matches[i..][1..] == matches[i + 1..];
      var p := matches[i];
      if HasPrefix(p, "#") {
        continue;
      }
      if !IsOnlyUrl(p, net) {
        if FileIsImage(p) && embedImages {
          var img := RemoteImageContent(u + "/" + p, net);
          if img.err.Some? {
            continue;
          }
          out := ReplaceAll(out, p, img.data);
        } else {
          out := ReplaceAll(out, p, u + "/" + p);
        }
      }
    }
    ghost var afterLinks := out;
    matches := FindTargets(out, ImageOpen, '"');
    for i := 0 to |matches|
      invariant RewriteTargets(u, out, matches[i..], embedImages, net)
             == RewriteTargets(u, afterLinks, matches, embedImages, net)
    {
      assert matches[i..][1..] == matches[i + 1..];
      var p := matches[i];
      if HasPrefix(p, "#") {
        continue;
      }
      if !IsOnlyUrl(p, net) {
        if FileIsImage(p) && embedImages {
          var img := RemoteImageContent(u + "/" + p, net);
          if img.err.Some? {
            continue;
          }
          out := ReplaceAll(out, p, img.data);
        } else {
          out := ReplaceAll(out, p, u + "/" + p);
        }
      }
    }
  }

  predicate LeftAlone(p: string, net: Net)
  {
    HasPrefix(p, "#") || IsOnlyUrl(p, net)
  }

  lemma {:induction false} RewriteTargetsLeftAlone(u: string, data: string, ps: seq<string>, embedImages: bool, net: Net)
    requires forall i :: 0 <= i < |ps| ==> LeftAlone(ps[i], net)
    ensures RewriteTargets(u, data, ps, embedImages, net) == data
    decreases |ps|
  {
    if ps != [] {
      RewriteTargetsLeftAlone(u, data, ps[1..], embedImages, net);
    }
  }

  /** Data whose Markdown-link and img-src targets are all fragments or URLs
      comes back unchanged, with or without image embedding. */
  lemma RelinkedLeavesAbsoluteLinks(u: string, data: string, embedImages: bool, net: Net)
    requires forall p :: p in FindTargets(data, LinkOpen, ')') ==> LeftAlone(p, net)
    requires forall p :: p in FindTargets(data, ImageOpen, '"') ==> LeftAlone(p, net)
    ensures Relinked(u, data, embedImages, net) == data
  {
    RewriteTargetsLeftAlone(u, data, FindTargets(data, LinkOpen, ')'), embedImages, net);
    RewriteTargetsLeftAlone(u, data, FindTargets(data, ImageOpen, '"'), embedImages, net);
  }

  /** A relative target that is not embedded has its first occurrence, and from
      there on every later one, replaced by `u + "/" + p`; an embedded image
      whose fetch failed leaves the data as it is. */
  lemma RewriteStepRelative(u: string, x: string, p: string, y: string, embedImages: bool, net: Net)
    requires |p| > 0 && !LeftAlone(p, net) && FirstAfter(x, p)
    ensures !(FileIsImage(p) && embedImages) ==>
      RewriteStep(u, x + p + y, p, embedImages, net) == x + (u + "/" + p) + ReplaceAll(y, p, u + "/" + p)
    ensures FileIsImage(p) && embedImages && RemoteImageContent(u + "/" + p, net).err.Some? ==>
      RewriteStep(u, x + p + y, p, embedImages, net) == x + p + y
  {
    ReplaceAllAtFirstOccurrence(x, p, y, u + "/" + p);
  }

  // ----------------------------------------------------------------- remotes

  /** The base for rewriting: the URL with its last '/'-separated segment dropped. */
  function BaseUrl(u: string): string
  {
    var parts := Split(u, '/');
    Join(parts[..|parts| - 1], '/')
  }

  /** The base URL, a '/' and the last segment make up the URL; without a '/'
      the base is empty. */
  lemma BaseUrlSpec(u: string)
    ensures '/' in u ==>
      var last := Split(u, '/')[|Split(u, '/')| - 1];
      BaseUrl(u) + "/" + last == u && '/' !in last
    ensures '/' !in u ==> BaseUrl(u) == ""
  {
    var parts := Split(u, '/');
    SplitMany(u, '/');
    SplitNoSeparator(u, '/');
    JoinSplit(u, '/');
    if '/' in u {
      JoinSnoc(parts, '/');
    }
  }

  /** GetRemote: fetch without following redirects; a non-2xx status (an
      unfollowed redirect included) is reported as "get error: <code>" alongside
      the body, whose relative links are rewritten against the base URL. */
  function GetRemote(u: string, embedImages: bool, net: Net): (r: Remote)
    ensures r.err.None? <==>
      net.parse(TrimSpace(u)).Some? &&
      net.get(TrimSpace(u), false).Response? && IsSuccess(net.get(TrimSpace(u), false).status)
    ensures net.parse(TrimSpace(u)).Some? && net.get(TrimSpace(u), false).Response? ==>
      var res := net.get(TrimSpace(u), false);
      r.data == Relinked(BaseUrl(TrimSpace(u)), BytesToString(res.body), embedImages, net) &&
      (!IsSuccess(res.status) ==> r.err == Some(StatusError(res.status)))
    ensures !(net.parse(TrimSpace(u)).Some? && net.get(TrimSpace(u), false).Response?) ==> r.data == ""
  {
    var t := TrimSpace(u);
    if net.parse(t).None? then Remote("", Some("url parse error"))
    else match net.get(t, false)
      case RequestFailed(msg) => Remote("", Some(msg))
      case BodyFailed(msg) => Remote("", Some(msg))
      case Response(status, body, _) =>
        var err := if IsSuccess(status) then None else Some(StatusError(status));
        Remote(Relinked(BaseUrl(t), BytesToString(body), embedImages, net), err)
  }
}
