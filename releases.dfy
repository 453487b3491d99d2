/** pkg/release/release.go: release records found under `releases/`, their
    semantic-version order, their readme and the difference between two lists. */
module Releases {
  import opened Wrappers
  import opened Strings
  import opened External
  import FilePath
  import Semver
  import Sorting
  import Utils

  /** A release: the first path segment under the releases directory, the
      readme's modification time clamped to load time, its directory and file. */
  datatype Release = Release(name: string, date: int, dir: string, readmeFile: Option<string>)
  {
    /** Release.Readme: the file's text, or, when the text is only a URL, the
        body fetched from it (following redirects). Only a missing pointer and
        a failed read are errors: a failed fetch or body read falls back to the
        file's own text without an error, and the status code is never looked at. */
    function Readme(fs: FileSystem, net: Net, openOnFailure: bool): (c: Utils.Content)
      ensures c.err.Some? <==> readmeFile.None? || fs.readFile(readmeFile.value).Err?
      ensures readmeFile.None? ==> c == Utils.Content("", Some("readme file not set"), false)
      ensures readmeFile.Some? && fs.readFile(readmeFile.value).Ok? ==>
        var text := BytesToString(fs.readFile(readmeFile.value).value);
        && (!Utils.IsOnlyUrl(text, net) ==> c == Utils.Content(text, None, false))
        && (Utils.IsOnlyUrl(text, net) ==>
              match net.get(text, true)
              case Response(_, body, _) => c == Utils.Content(BytesToString(body), None, false)
              case RequestFailed(_) => c == Utils.Content(text, None, openOnFailure)
              case BodyFailed(_) => c == Utils.Content(text, None, false))
      ensures c.urlOpened ==> openOnFailure
    {
      if readmeFile.None? then Utils.Content("", Some("readme file not set"), false)
      else match fs.readFile(readmeFile.value)
        case Err(msg) => Utils.Content("", Some(msg), false)
        case Ok(b) =>
          var text := BytesToString(b);
          if !Utils.IsOnlyUrl(text, net) then Utils.Content(text, None, false)
          else match net.get(text, true)
            case RequestFailed(_) => Utils.Content(text, None, openOnFailure)
            case BodyFailed(_) => Utils.Content(text, None, false)
            case Response(_, body, _) => Utils.Content(BytesToString(body), None, false)
    }
  }

  /** The order sort.Slice is given: `less(x, y)` is `semver.Compare(x, y) == -1`,
      so `!less(y, x)` is `semver.Compare(x, y) <= 0`. */
  predicate NameLe(x: Release, y: Release)
  {
    Semver.Le(x.name, y.name)
  }

  ghost predicate Descending(rs: seq<Release>)
  {
    forall i, j :: 0 <= i < j < |rs| ==> NameLe(rs[j], rs[i])
  }

  function Reversed<T>(s: seq<T>): (r: seq<T>)
    ensures |r| == |s|
  {
    seq(|s|, k requires 0 <= k < |s| => s[|s| - 1 - k])
  }

  /** Reversal keeps the elements and turns an ascending sequence into a descending one. */
  lemma {:induction false} ReversedPermutation<T>(s: seq<T>)
    ensures multiset(Reversed(s)) == multiset(s)
    decreases |s|
  {
    if s != [] {
      ReversedPermutation(s[1..]);
      assert Reversed(s) == Reversed(s[1..]) + [s[0]];
      assert s == [s[0]] + s[1..];
    }
  }

  lemma ReversedAscending(s: seq<Release>)
    requires Sorting.SortedBy(s, NameLe)
    ensures Descending(Reversed(s))
  {
  }

  /** The swap loop of SortBySemver: position i exchanges with len-1-i, from the
      middle outwards. */
  method Reverse<T>(a: array<T>)
    modifies a
    ensures a[..] == Reversed(old(a[..]))
  {
    var n := a.Length;
    var i: int := n / 2 - 1;
    while i >= 0
      invariant -1 <= i <= n / 2 - 1
      invariant forall k :: 0 <= k < n ==>
        a[k] == (if i < k < n - 1 - i then old(a[n - 1 - k]) else old(a[k]))
    {
      var opp := n - 1 - i;
      a[i], a[opp] := a[opp], a[i];
      i := i - 1;
    }
  }

  /** SortBySemver: an ascending sort by semver.Compare, then an in-place
      reversal, leaving the latest release first. */
  method SortBySemver(a: array<Release>)
    modifies a
    ensures multiset(a[..]) == multiset(old(a[..]))
    ensures Descending(a[..])
  {
    Semver.LeTotalPreorder();
    Sorting.SortBy(a, NameLe);
    ghost var sorted := a[..];
    Reverse(a);
    ReversedPermutation(sorted);
    ReversedAscending(sorted);
  }

  /** The list gets sorted: its first release's name is a valid semver. */
  predicate Resorted(rs: seq<Release>)
  {
    |rs| > 0 && Semver.IsValid(rs[0].name)
  }

  /** What a list becomes under "if the first release is a valid semver, assume
      all releases are and sort them": the same list, or, when its first name is
      valid, a descending permutation of it. */
  ghost predicate Arranged(found: seq<Release>, r: seq<Release>)
  {
    if Resorted(found) then
      multiset(r) == multiset(found) && Descending(r)
    else
      r == found
  }

  method SortIfSemver(rs: seq<Release>) returns (r: seq<Release>)
    ensures Arranged(rs, r)
  {
    if Resorted(rs) {
      var a := new Release[|rs|](k requires 0 <= k < |rs| => rs[k]);
      assert a[..] == rs;
      SortBySemver(a);
      r := a[..];
    } else {
      r := rs;
    }
  }

  // -------------------------------------------------------------- loading

  /** The release a walk callback records: one for a file named README.md in
      any letter case, none for anything else. */
  function Entry(root: string, v: Visit, now: int): (e: seq<Release>)
    requires v.Visit?
    ensures |e| <= 1
    ensures |e| == 1 <==> EqualFold(v.name, "README.md")
    ensures |e| == 1 ==>
      && e[0].name == Split(v.rel, '/')[0]
      && e[0].readmeFile == Some(FilePath.Join2(root, v.rel))
      && e[0].date <= now
      && (v.modTime <= now ==> e[0].date == v.modTime)
  {
    if !EqualFold(v.name, "README.md") then []
    else
      var path := FilePath.Join2(root, v.rel);
      var date := if v.modTime > now then now else v.modTime;
      [Release(Split(v.rel, '/')[0], date, FilePath.Dir(path), Some(path))]
  }

  /** What a walk yields: the releases in walk order, or the first error the
      walk reports, which discards everything found so far. */
  function Walked(root: string, vs: seq<Visit>, now: int): (r: Result<seq<Release>>)
    ensures r.Err? <==> exists k :: 0 <= k < |vs| && vs[k].WalkError?
    ensures r.Ok? ==> forall k :: 0 <= k < |r.value| ==> r.value[k].date <= now
    ensures r.Ok? ==> |r.value| <= |vs|
    decreases |vs|
  {
    if vs == [] then Ok([])
    else if vs[0].WalkError? then Err(vs[0].msg)
    else match Walked(root, vs[1..], now)
      case Err(m) => Err(m)
      case Ok(rest) => Ok(Entry(root, vs[0], now) + rest)
  }

  function Prepend(rs: seq<Release>, r: Result<seq<Release>>): Result<seq<Release>>
  {
    match r
    case Err(m) => Err(m)
    case Ok(t) => Ok(rs + t)
  }

  lemma PrependNothing(r: Result<seq<Release>>)
    ensures Prepend([], r) == r
  {
    if r.Ok? {
      assert [] + r.value == r.value;
    }
  }

  lemma WalkedStep(root: string, vs: seq<Visit>, i: nat, now: int)
    requires i < |vs| && vs[i].Visit?
    ensures Walked(root, vs[i..], now) == Prepend(Entry(root, vs[i], now), Walked(root, vs[i + 1..], now))
  {
    assert vs[i..][1..] == vs[i + 1..];
  }

  lemma PrependTwice(rs: seq<Release>, e: seq<Release>, r: Result<seq<Release>>)
    ensures Prepend(rs, Prepend(e, r)) == Prepend(rs + e, r)
  {
    if r.Ok? {
      assert rs + (e + r.value) == (rs + e) + r.value;
    }
  }

  /** LoadReleases: errors for an unset or missing directory; otherwise the
      releases found by the walk, sorted latest first only when the first name
      found is a valid semantic version. (A stat error other than "does not
      exist" does not stop the walk.) */
  method LoadReleases(dir: string, fs: FileSystem, now: int) returns (r: Result<seq<Release>>)
    ensures dir == "" ==> r == Err("local dir not set")
    ensures dir != "" && fs.stat(dir).NotExist? ==> r == Err("local dir does not exist")
    ensures dir != "" && !fs.stat(dir).NotExist? ==>
      var root := FilePath.Clean(dir);
      match Walked(root, fs.walk(root), now)
      case Err(m) => r == Err(m)
      case Ok(found) => r.Ok? && Arranged(found, r.value)
  {
    if dir == "" {
      return Err("local dir not set");
    }
    if fs.stat(dir).NotExist? {
      return Err("local dir does not exist");
    }
    var root := FilePath.Clean(dir);
    var visits := fs.walk(root);
    var rs: seq<Release> := [];
    var i := 0;
    assert visits[0..] == visits;
    PrependNothing(Walked(root, visits, now));
    while i < |visits|
      invariant 0 <= i <= |visits|
      invariant Walked(root, visits, now) == Prepend(rs, Walked(root, visits[i..], now))
    {
      var v := visits[i];
      if v.WalkError? {
        assert visits[i..][0] == v;
        return Err(v.msg);
      }
      WalkedStep(root, visits, i, now);
      PrependTwice(rs, Entry(root, v, now), Walked(root, visits[i + 1..], now));
      rs := rs + Entry(root, v, now);
      i := i + 1;
    }
    assert visits[i..] == [];
    assert rs + [] == rs;
    var sorted := SortIfSemver(rs);
    r := Ok(sorted);
  }

  // ---------------------------------------------------------- new releases

  predicate NameIn(rs: seq<Release>, name: string)
  {
    exists k :: 0 <= k < |rs| && rs[k].name == name
  }

  /** The found loop of NewReleases: whether some release of `rs` is called `name`. */
  method HasName(rs: seq<Release>, name: string) returns (found: bool)
    ensures found <==> NameIn(rs, name)
  {
    found := false;
    var j := 0;
    while j < |rs|
      invariant 0 <= j <= |rs|
      invariant !exists k :: 0 <= k < j && rs[k].name == name
    {
      if name == rs[j].name {
        found := true;
        break;
      }
      j := j + 1;
    }
  }

  /** The releases of `latest` whose name no release of `current` has, in `latest`'s order. */
  function Unseen(current: seq<Release>, latest: seq<Release>): (r: seq<Release>)
    ensures |r| <= |latest|
    decreases |latest|
  {
    if latest == [] then []
    else
      (if NameIn(current, latest[0].name) then [] else [latest[0]]) + Unseen(current, latest[1..])
  }

  /** A release is new exactly when it is in `latest` and its name is not in `current`. */
  lemma {:induction false} UnseenMembers(current: seq<Release>, latest: seq<Release>)
    ensures forall x :: x in Unseen(current, latest) <==> x in latest && !NameIn(current, x.name)
    decreases |latest|
  {
    if latest != [] {
      UnseenMembers(current, latest[1..]);
      assert latest == [latest[0]] + latest[1..];
    }
  }

  /** Nothing is new when every name already occurs. */
  lemma {:induction false} UnseenCovered(current: seq<Release>, latest: seq<Release>)
    requires forall k :: 0 <= k < |latest| ==> NameIn(current, latest[k].name)
    ensures Unseen(current, latest) == []
    decreases |latest|
  {
    if latest != [] {
      UnseenCovered(current, latest[1..]);
    }
  }

  /** Nothing in a list is new relative to the list itself. */
  lemma UnseenOfSelf(rs: seq<Release>)
    ensures Unseen(rs, rs) == []
  {
    forall k | 0 <= k < |rs| ensures NameIn(rs, rs[k].name) {
    }
    UnseenCovered(rs, rs);
  }

  lemma UnseenStep(current: seq<Release>, latest: seq<Release>, i: nat)
    requires i < |latest|
    ensures Unseen(current, latest[i..]) ==
      (if NameIn(current, latest[i].name) then [] else [latest[i]]) + Unseen(current, latest[i + 1..])
  {
    assert latest[i..][1..] == latest[i + 1..];
  }

  /** Against an empty current list every latest release is new. */
  lemma {:induction false} UnseenOfNothing(latest: seq<Release>)
    ensures Unseen([], latest) == latest
    decreases |latest|
  {
    if latest != [] {
      UnseenOfNothing(latest[1..]);
    }
  }

  /** One outer iteration of NewReleases keeps its invariant. */
  lemma NewReleasesStep(current: seq<Release>, latest: seq<Release>, i: nat, added: seq<Release>, found: bool)
    requires i < |latest| && (found <==> NameIn(current, latest[i].name))
    requires added + Unseen(current, latest[i..]) == Unseen(current, latest)
    ensures (if found then added else added + [latest[i]]) + Unseen(current, latest[i + 1..]) == Unseen(current, latest)
  {
    UnseenStep(current, latest, i);
    var rest := Unseen(current, latest[i + 1..]);
    if !found {
      assert added + ([latest[i]] + rest) == (added + [latest[i]]) + rest;
    }
  }

  /** NewReleases: the releases of `latest` whose name is not in `current`,
      sorted latest first when the first of them has a valid semantic version. */
  method NewReleases(current: seq<Release>, latest: seq<Release>) returns (r: seq<Release>)
    ensures Arranged(Unseen(current, latest), r)
  {
    var added: seq<Release> := [];
    var i := 0;
    assert latest[0..] == latest;
    while i < |latest|
      invariant 0 <= i <= |latest|
      invariant added + Unseen(current, latest[i..]) == Unseen(current, latest)
    {
      var l := latest[i];
      var found := HasName(current, l.name);
      NewReleasesStep(current, latest, i, added, found);
      if !found {
        added := added + [l];
      }
      i := i + 1;
    }
    assert latest[i..] == [];
    assert added == Unseen(current, latest);
    r := SortIfSemver(added);
  }

  /** A list compared with itself has no new releases. */
  lemma NewReleasesOfSelf(rs: seq<Release>, r: seq<Release>)
    requires Arranged(Unseen(rs, rs), r)
    ensures r == []
  {
    UnseenOfSelf(rs);
  }
}
