/** The parts of Go's `path/filepath` package the indexer and `RepoDir` use,
    for '/'-separated paths. */
module FilePath {
  import Strings

  /** The segments kept by Clean, processing "." and ".." lexically. */
  function Resolve(parts: seq<string>, rooted: bool, acc: seq<string>): seq<string>
    decreases |parts|
  {
    if parts == [] then acc
    else
      var seg := parts[0];
      if seg == "" || seg == "." then Resolve(parts[1..], rooted, acc)
      else if seg == ".." then
        if |acc| > 0 && acc[|acc| - 1] != ".." then Resolve(parts[1..], rooted, acc[..|acc| - 1])
        else if rooted then Resolve(parts[1..], rooted, acc)
        else Resolve(parts[1..], rooted, acc + [".."])
      else Resolve(parts[1..], rooted, acc + [seg])
  }

  /** filepath.Clean: the shortest lexically equivalent path. */
  function Clean(p: string): (r: string)
    ensures r != ""
  {
    var rooted := |p| > 0 && p[0] == '/';
    Cleaned(rooted, Strings.Join(Resolve(Strings.Split(p, '/'), rooted, []), '/'))
  }

  /** How Clean assembles its result from the rootedness and the joined segments. */
  function Cleaned(rooted: bool, body: string): (r: string)
    ensures r != ""
  {
    if rooted then "/" + body else if body == "" then "." else body
  }

  /** The elements from the first non-empty one on. */
  function FromFirstNonEmpty(elems: seq<string>): (r: seq<string>)
    ensures |r| <= |elems| && r == elems[|elems| - |r|..]
    ensures r == [] || r[0] != ""
    ensures forall i :: 0 <= i < |elems| - |r| ==> elems[i] == ""
  {
    if elems == [] || elems[0] != "" then elems else FromFirstNonEmpty(elems[1..])
  }

  /** filepath.Join: join the elements with '/' and clean; "" when all are empty. */
  function JoinPath(elems: seq<string>): (r: string)
    ensures r == "" <==> forall i :: 0 <= i < |elems| ==> elems[i] == ""
  {
    var rest := FromFirstNonEmpty(elems);
    if rest == [] then "" else Clean(Strings.Join(rest, '/'))
  }

  /** filepath.Join of two elements, written out. */
  function Join2(a: string, b: string): (r: string)
    ensures r == "" <==> a == "" && b == ""
  {
    if a == "" then (if b == "" then "" else Clean(b)) else Clean(a + "/" + b)
  }

  lemma Join2IsJoin(a: string, b: string)
    ensures Join2(a, b) == JoinPath([a, b])
  {
    JoinedPair(a, b);
    if a != "" || b != "" {
      JoinPathIsClean([a, b], if a == "" then b else a + "/" + b);
    }
  }

  /** The elements filepath.Join keeps of a pair, joined with '/'. */
  lemma JoinedPair(a: string, b: string)
    ensures a == "" && b == "" ==> FromFirstNonEmpty([a, b]) == []
    ensures a == "" && b != "" ==> FromFirstNonEmpty([a, b]) == [b] && Strings.Join([b], '/') == b
    ensures a != "" ==> FromFirstNonEmpty([a, b]) == [a, b] && Strings.Join([a, b], '/') == a + "/" + b
  {
    assert [a, b][1..] == [b];
    assert [b][1..] == [];
  }

  lemma JoinPathIsClean(elems: seq<string>, joined: string)
    requires FromFirstNonEmpty(elems) != [] && Strings.Join(FromFirstNonEmpty(elems), '/') == joined
    ensures JoinPath(elems) == Clean(joined)
  {
  }

  /** An ordinary last segment is kept, after whatever the earlier segments resolve to. */
  lemma {:induction false} ResolveAppend(parts: seq<string>, rooted: bool, acc: seq<string>, seg: string)
    requires seg != "" && seg != "." && seg != ".."
    ensures Resolve(parts + [seg], rooted, acc) == Resolve(parts, rooted, acc) + [seg]
    decreases |parts|
  {
    if parts == [] {
      assert [seg][1..] == [];
    } else {
      var p := parts[0];
      var acc' :=
        if p == "" || p == "." then acc
        else if p == ".." then
          (if |acc| > 0 && acc[|acc| - 1] != ".." then acc[..|acc| - 1] else if rooted then acc else acc + [".."])
        else acc + [p];
      assert (parts + [seg])[0] == p && (parts + [seg])[1..] == parts[1..] + [seg];
      assert Resolve(parts, rooted, acc) == Resolve(parts[1..], rooted, acc');
      assert Resolve(parts + [seg], rooted, acc) == Resolve(parts[1..] + [seg], rooted, acc');
      ResolveAppend(parts[1..], rooted, acc', seg);
    }
  }

  /** Joining an ordinary element onto a clean directory that is neither "."
      nor ends in '/' is plain concatenation with a '/' between. */
  lemma JoinClean(d: string, e: string)
    requires d != "" && d != "." && d[|d| - 1] != '/' && Clean(d) == d
    requires '/' !in e && e != "" && e != "." && e != ".."
    ensures Join2(d, e) == d + "/" + e
  {
    var rooted := d[0] == '/';
    var p := d + "/" + e;
    assert p[0] == d[0];
    var bd := Strings.Join(Resolve(Strings.Split(d, '/'), rooted, []), '/');
    var bp := Strings.Join(Resolve(Strings.Split(p, '/'), rooted, []), '/');
    BodySnoc(d, e, rooted);
    assert Clean(d) == Cleaned(rooted, bd);
    assert Clean(p) == Cleaned(rooted, bp);
    CleanedSnoc(d, e, rooted, bd, bp);
  }

  lemma CleanedSnoc(d: string, e: string, rooted: bool, bd: string, bp: string)
    requires d == Cleaned(rooted, bd) && d != "." && d[|d| - 1] != '/'
    requires bd != "" ==> bp == bd + "/" + e
    ensures Cleaned(rooted, bp) == d + "/" + e
  {
    assert bd != "";
  }

  /** The cleaned body of `d + "/" + e` is that of `d`, then '/' and `e`. */
  lemma BodySnoc(d: string, e: string, rooted: bool)
    requires '/' !in e && e != "" && e != "." && e != ".."
    ensures var bd := Strings.Join(Resolve(Strings.Split(d, '/'), rooted, []), '/');
      bd != "" ==> Strings.Join(Resolve(Strings.Split(d + "/" + e, '/'), rooted, []), '/') == bd + "/" + e
  {
    assert d + "/" + e == d + ['/'] + e;
    Strings.SplitAppend(d, e, '/');
    var segs := Resolve(Strings.Split(d, '/'), rooted, []);
    ResolveAppend(Strings.Split(d, '/'), rooted, [], e);
    if segs != [] {
      Strings.JoinSnoc(segs + [e], '/');
      assert (segs + [e])[..|segs|] == segs;
    }
  }

  /** Index just past the last '/' of `p`, 0 when there is none. */
  function AfterLastSlash(p: string): (i: nat)
    ensures i <= |p|
    ensures i > 0 ==> p[i - 1] == '/'
    ensures forall k :: i <= k < |p| ==> p[k] != '/'
  {
    if p == [] then 0
    else if p[|p| - 1] == '/' then |p|
    else AfterLastSlash(p[..|p| - 1])
  }

  /** filepath.Dir: everything before the last element, cleaned. */
  function Dir(p: string): string
  {
    Clean(p[..AfterLastSlash(p)])
  }

  /** filepath.Ext: the suffix of the last element starting at its last '.', or "". */
  function Ext(p: string): (e: string)
    ensures Strings.HasSuffix(p, e)
    ensures e == "" || e[0] == '.'
    ensures '/' !in e
    decreases |p|
  {
    if p == [] || p[|p| - 1] == '/' then ""
    else if p[|p| - 1] == '.' then "."
    else
      var e := Ext(p[..|p| - 1]);
      SuffixSnoc(p, e);
      if e == "" then "" else e + [p[|p| - 1]]
  }

  lemma SuffixSnoc(p: string, e: string)
    requires p != [] && Strings.HasSuffix(p[..|p| - 1], e)
    ensures Strings.HasSuffix(p, e + [p[|p| - 1]])
  {
    var q := p[..|p| - 1];
    assert q[|q| - |e|..] == e;
    assert p[|p| - |e| - 1..] == q[|q| - |e|..] + [p[|p| - 1]];
  }

  /** The path with its extension removed, as `path[:len(path)-len(filepath.Ext(path))]`. */
  function StripExt(p: string): string
  {
    p[..|p| - |Ext(p)|]
  }

  /** Stripping the extension and putting it back gives the path. */
  lemma StripExtThenExt(p: string)
    ensures StripExt(p) + Ext(p) == p
  {
  }

  /** A final element ending in `e`, where `e` is one '.' followed by bytes
      without '.' or '/', has extension exactly `e`. */
  lemma {:induction false} ExtOfSuffix(s: string, e: string)
    requires |e| >= 1 && e[0] == '.'
    requires '.' !in e[1..] && '/' !in e[1..]
    ensures Ext(s + e) == e
    decreases |e|
  {
    if |e| > 1 {
      var e' := e[..|e| - 1];
      assert e'[1..] == e[1..][..|e| - 2];
      assert (s + e)[..|s + e| - 1] == s + e';
      ExtOfSuffix(s, e');
    } else {
      assert (s + e)[|s + e| - 1] == '.';
    }
  }

  /** "owner/repo.git" loses exactly its ".git". */
  lemma StripGitSuffix(p: string)
    ensures StripExt(p + ".git") == p
  {
    ExtOfSuffix(p, ".git");
    assert (p + ".git")[..|p|] == p;
  }
}
