# gman, modelled in Dafny

gman mirrors a git repository of documentation. The docs sit under
`docs/<namespace>/<app>/README.md` (with an optional `TLDR.md` and `examples/`), and
release notes under `releases/<name>/README.md`. gman indexes the mirror
into an in-memory catalog and answers listings, lookups and searches over it.
A file whose whole text is one URL is a pointer: its content is fetched, and
relative links in what comes back are rewritten against the URL. The web site
builds its sidebar from the same tree.

This project models that core and proves properties of it:

| module | file | models |
|---|---|---|
| `Catalog` | catalog.dfy | pkg/gman/gman.go: the `Gman` object, listing, lookups, the search worker pool, the documentation indexer |
| `Releases` | releases.dfy | pkg/release/release.go: release discovery, semver ordering, new-release detection |
| `Utils` | utils.dfy | internal/utils/utils.go: pointer detection, search matching, image embedding, link rewriting, remote fetches |
| `Git` | git.dfy | pkg/gman/git.go: the mirror directory, the command sequences, the update decision |
| `Config` | config.dfy | pkg/gman/config.go: config file discovery, parsing order, the settings overlay |
| `Output` | output.dfy | internal/output/apps.go: app and namespace listings as text, JSON or YAML |
| `Sidebars` | sidebars.dfy | internal/web/web/sidebars.js: the recursive file walk and the sidebar grouping |
| `Strings`, `FilePath`, `Semver`, `Sorting`, `Seqs`, `External`, `Wrappers` | | the parts of Go's `strings`, `path/filepath`, `golang.org/x/mod/semver` and `sort` that the core relies on, the oracles, and Option/Result |

The model works as follows:
- Go strings are `seq<char>`, one char per byte.
- File system, network, URL parsing, regular expressions, YAML/JSON decoding and process
  execution are oracles: datatypes of functions whose answers are inputs.
- The package-level flags are the `External.Switches` object.
- Code that mutates state is imperative Dafny. `Gman` is a class whose methods update its
  fields. `SortBySemver` sorts an array in place. The walk callbacks, the result drain and
  the sidebar loops are `while` loops, each proved against a specification function.
- Go's map iteration order and the order a worker pool delivers results in are not fixed.
  The model leaves both open: the key order is a parameter, and the drain takes any
  pending job next. Every property is proved for every order.
- A `regexp.MustCompile` panic is an outcome (`Panic`, `Panicked`, `crashed`), not a
  precondition.

Four behaviours of the code that are easy to miss:
- `Release.Readme` never checks the HTTP status of a pointer's fetch.
- A failed walk still keeps the apps recorded before the error.
- `docsSidebar` removes only the first occurrence of the docs directory, of `/` and of
  `.md`.
- The output functions write "No apps found" (for apps and for namespaces) and the JSON and YAML
  listings with Go's builtin `println`, which goes to standard error; only the tables go to
  standard output. `Printed` does not record the stream.

## Model

| member | source | states |
|---|---|---|
| Utils.IsOnlyUrlSpec | internal/utils/utils.go:23-41 | a pointer is exactly a string without a newline whose trimmed text parses as a request URI |
| Utils.StringSearch | internal/utils/utils.go:56-66 | a substring hit matches; otherwise the pattern is compiled, and a pattern that does not compile panics; a match is a substring hit or a regexp match |
| Utils.ImageSuffixIsImage | internal/utils/utils.go:132-142 | any name ending in .png, .jpg, .jpeg, .gif or .svg is an image |
| Utils.UpperCaseIsNotImage | internal/utils/utils.go:134-138 | the extension comparison is case-sensitive: ".PNG" and ".JPG" are not images |
| Utils.Base64Shape | internal/utils/utils.go:126 | the standard encoding has 4 characters per started 3-byte group, all from the base64 alphabet |
| Utils.DataUri | internal/utils/utils.go:128 | the embedded form starts with "data:" + content type + ";base64," |
| Utils.RemoteImageContent | internal/utils/utils.go:89-130 | no error exactly when the URL parses, the request and body read succeed and the status is 2xx; a response always yields the data URI of its body, even with a status error |
| Utils.IndexOfChar | internal/utils/utils.go:147 | the position of the first occurrence of the character, or the length when it does not occur |
| Utils.StripParentDirs | internal/utils/utils.go:147 | the greedy `(\.\.\/)*` leaves a suffix of the capture that is non-empty when the capture is, and that starts with "../" only when it is exactly "../" |
| Utils.FindTargets | internal/utils/utils.go:147-149 | every target found is non-empty and contains no closing character |
| Utils.RewriteRelativePaths | internal/utils/utils.go:144-204 | the two match loops compute `Relinked`: the Markdown-link pass and then the img-src pass over the rewritten data |
| Utils.RewriteTargetsLeftAlone | internal/utils/utils.go:153-158 | targets that are fragments or URLs leave the data unchanged |
| Utils.RelinkedLeavesAbsoluteLinks | internal/utils/utils.go:144-204 | data whose link and img-src targets are all fragments or URLs is returned unchanged |
| Utils.RewriteStepRelative | internal/utils/utils.go:164-173 | in an unembedded relative target, everything before the target's first occurrence is kept and that occurrence becomes base + "/" + target; a failed image fetch leaves the data as it is |
| Utils.BaseUrlSpec | internal/utils/utils.go:248 | base URL + "/" + last segment is the URL; a URL without '/' has the empty base |
| Utils.GetRemote | internal/utils/utils.go:206-252 | no error exactly when the URL parses, the fetch (redirects not followed) succeeds and the status is 2xx; a response's body is always relinked against the base URL, even with a status error; otherwise the data is empty |
| Releases.Release.Readme | pkg/release/release.go:93-118 | errors only for an unset file or a read error; a literal file is returned as it is; a pointer is fetched: a failed request returns the pointer text and opens the URL only when the flag is set, a failed body read returns the pointer text, a response returns its body whatever its status; the URL is opened in no other case |
| Releases.ReversedPermutation | pkg/release/release.go:35-38 | reversal keeps the same elements |
| Releases.ReversedAscending | pkg/release/release.go:29-39 | reversing a list sorted ascending by semver gives a descending one |
| Releases.Reverse | pkg/release/release.go:35-38 | the swap loop from len/2-1 down to 0 leaves the array reversed |
| Releases.SortBySemver | pkg/release/release.go:29-39 | the array is a permutation of its old contents, sorted descending by semver.Compare |
| Releases.SortIfSemver | pkg/release/release.go:86-89 | when the first name is a valid semver (in the restricted sense of `Semver` under "## Left out") the list is re-sorted newest first, a permutation; otherwise it is unchanged |
| Releases.Entry | pkg/release/release.go:58-79 | a walk entry gives a release exactly when its name is README.md in any letter case; the release is named after the first path segment, points at the file, and is dated no later than now |
| Releases.Walked | pkg/release/release.go:54-85 | the walk fails exactly when some callback gets an error; every recorded date is at most now |
| Releases.WalkedStep | pkg/release/release.go:54-82 | each callback prepends its entry to what the rest of the walk yields |
| Releases.PrependTwice | pkg/release/release.go:78 | appending entries one callback at a time is appending them all at once |
| Releases.LoadReleases | pkg/release/release.go:41-91 | "local dir not set" and "local dir does not exist" errors; a walk error is returned; otherwise the releases in walk order, re-sorted newest first when the first is a valid semver in the restricted sense of `Semver` under "## Left out" |
| Releases.HasName | pkg/release/release.go:123-129 | the inner loop finds a release exactly when one of `current` has the name |
| Releases.UnseenMembers | pkg/release/release.go:120-133 | a release is kept exactly when it is in `latest` and no release of `current` has its name |
| Releases.UnseenCovered | pkg/release/release.go:120-133 | when every name already occurs, nothing is new |
| Releases.UnseenOfSelf | pkg/release/release.go:120-133 | a list has no new releases relative to itself |
| Releases.UnseenStep | pkg/release/release.go:122-132 | one outer iteration appends the release exactly when it is new |
| Releases.UnseenOfNothing | pkg/release/release.go:120-133 | relative to no releases, every release is new |
| Releases.NewReleases | pkg/release/release.go:120-139 | the new releases of `latest`, re-sorted newest first when the first is a valid semver in the restricted sense of `Semver` under "## Left out" |
| Releases.NewReleasesOfSelf | pkg/release/release.go:120-139 | the new releases of a list relative to itself are none |
| Semver.LeTotalPreorder | pkg/release/release.go:31-33 | "not newer than" by semver.Compare is total and transitive, as sort.Slice requires |
| Semver.CompareAntisymmetric | pkg/release/release.go:32 | Compare(a, b) is minus Compare(b, a) |
| Semver.CompareLexicographic | pkg/release/release.go:31-33 | between valid versions, "newer" means a larger major, or an equal major and a larger minor, or equal major and minor and a larger patch; equal exactly when all three agree |
| Semver.ValidAboveInvalid | pkg/release/release.go:31-33 | a valid version compares above, and sorts before, any invalid one |
| Semver.ParseOneDigitTriple | pkg/release/release.go:87 | "vA.B.C" with single digits parses to the version (A, B, C) |
| Catalog.App.Readme | pkg/gman/gman.go:420-448 | an unset file gives "readme file not set"; otherwise the file's content as `FileContent` gives it |
| Catalog.App.TLDR | pkg/gman/gman.go:450-470 | an unset file gives "tldr file not set"; otherwise the file's content as `FileContent` gives it |
| Catalog.FileContent | pkg/gman/gman.go:425-447 | a read error is returned; a literal file is its text; a pointer's failed fetch returns the pointer text with the error and opens the URL only when the flag is set |
| Catalog.LiteralNeedsNoFetch | pkg/gman/gman.go:430-447 | a file that is not a pointer is returned as it is, whatever the network does |
| Catalog.AppOrdersArePreorders | pkg/gman/gman.go:56-68 | the name and namespace orders given to sort.Slice are total preorders |
| Catalog.Flatten | pkg/gman/gman.go:54-60 | every namespace's apps are part of the listing of all apps |
| Catalog.FlattenUpdate | pkg/gman/gman.go:62-68 | reordering one namespace's apps in place reorders the listing of all apps |
| Catalog.FirstNamed | pkg/gman/gman.go:380-418 | the first element with the name, found exactly when one exists |
| Catalog.FindNamed | pkg/gman/gman.go:114-118 | the lookup loop with its early return finds `FirstNamed` |
| Catalog.SliceHasName | pkg/gman/gman.go:122-138 | appsSliceContains and releaseSliceContains report exactly whether some element has the same name |
| Catalog.Probe | pkg/gman/gman.go:157-176 | a content error fails the item; otherwise StringSearch decides found, not found or panic |
| Catalog.SearchApp | pkg/gman/gman.go:147-179 | a name hit is found; otherwise the readme decides unless it is not a match, then the TLDR; not found exactly when all three miss |
| Catalog.SearchRelease | pkg/gman/gman.go:246-265 | a name hit is found; otherwise the readme decides; not found exactly when both miss |
| Catalog.GatheredNothing | pkg/gman/gman.go:220-234 | the drained result is empty exactly when no item was found, which is when the namespace fallback runs |
| Catalog.GatheredStep | pkg/gman/gman.go:220-229 | one result appends a found item unless one with its name is already kept |
| Catalog.AppendedStep | pkg/gman/gman.go:222-228 | appending a found item with a new name keeps the result gathered |
| Catalog.KeptStep | pkg/gman/gman.go:222-228 | skipping an item that is not found, or whose name is already kept, keeps the result gathered |
| Catalog.TakeOut | pkg/gman/gman.go:220-229 | taking one pending job out and marking it drained loses no job |
| Catalog.Drain | pkg/gman/gman.go:205-229 | in any delivery order, a panic in some worker crashes the search; otherwise all jobs are drained and the result holds only found items, no name twice, and one item for every found name |
| Catalog.SameMembers | pkg/gman/gman.go:205-229 | the result properties depend only on which jobs there are, not on their order |
| Catalog.Gman.constructor | pkg/gman/gman.go:22-40 | a zero-valued Gman |
| Catalog.Gman.ListApps | pkg/gman/gman.go:51-70 | with no namespace, a new list of all apps sorted by name; a missing namespace gives nil; otherwise the stored slice is sorted in place, a permutation sorted by namespace |
| Catalog.Gman.SearchApps | pkg/gman/gman.go:197-237 | OpenURL is switched off; a panic crashes; otherwise the result is `Gathered` over the namespace's apps, or over all apps when the namespace has no hit; with no namespace or an unknown one the catalog is unchanged, otherwise only that namespace's slice changes, to a permutation of itself |
| Catalog.Gman.SearchReleases | pkg/gman/gman.go:283-318 | the release OpenURL is switched off; no releases gives none; it crashes exactly when some worker panics; otherwise the result is `Gathered` over the releases |
| Catalog.Gman.LoadApps | pkg/gman/gman.go:320-378 | "local dir not set" and "local dir does not exist" leave the catalog alone; otherwise the catalog after the walk callbacks is `Indexed` (a failed walk keeps what was recorded before the error) |
| Catalog.Gman.LoadReleases | pkg/gman/gman.go:72-94 | an unset local directory is an error; a missing local or releases directory leaves the releases as they were, without an error; otherwise the walk's error is returned and the releases kept, or the releases become the ones found, re-sorted newest first when the first is a valid semver in the restricted sense of `Semver` under "## Left out" |
| Catalog.Gman.GetRelease | pkg/gman/gman.go:100-120 | reloads the releases: "local dir not set", "local dir does not exist" for a missing releases directory, a walk error passed on; otherwise a release found with that name, and "release not found" exactly when none has it; when no re-sort happened, the first release with that name in walk order |
| Catalog.Gman.GetApp | pkg/gman/gman.go:380-418 | with a namespace, the first app of that name there; without one, "default" first and then the other namespaces in map order; "app not found" otherwise |
| Catalog.OrNotFound | pkg/gman/gman.go:399-417 | found apps are returned and a miss is "app not found" |
| Catalog.FirstNamedAppend | pkg/gman/gman.go:397-416 | a lookup over two lists takes the first list's hit, else the second's |
| Catalog.AppAt | pkg/gman/gman.go:341-372 | a README.md (any case) at least two segments deep is an app named by its first two segments; its TLDR file and examples directory are set exactly when they exist |
| Catalog.AddApp | pkg/gman/gman.go:341-374 | a callback only appends: every namespace and app list kept as a prefix, and apps stay under their own namespace |
| Catalog.Appended | pkg/gman/gman.go:369 | appending puts the app last in its namespace's slice |
| Catalog.Indexed | pkg/gman/gman.go:336-378 | the walk fails exactly when some callback gets an error; the catalog only grows, and apps stay under their own namespace |
| Git.RepoDir | pkg/gman/git.go:13-29 | "" exactly when the URL does not parse |
| Git.RepoDirDropsGit | pkg/gman/git.go:22-26 | a ".git" suffix of the URL path is not part of the mirror directory |
| Git.RunAll | pkg/gman/git.go:31-91 | commands run in order until the first failure: those run are a prefix, all but the last succeeded, and the error is the last one's |
| Git.RunAllCons | pkg/gman/git.go:58-89 | a succeeding first command is followed by the rest |
| Git.GitClone | pkg/gman/git.go:31-45 | clone, then update submodules, stopping at the first error |
| Git.GitPull | pkg/gman/git.go:47-91 | pull, checkout, hard reset to origin/branch, submodule update, stopping at the first error |
| Git.LastUpdated | pkg/gman/git.go:93-102 | the time is known exactly when .git/FETCH_HEAD can be stat'ed |
| Git.Decide | pkg/gman/git.go:119-145 | clone exactly when the mirror is missing; pull exactly when it exists and the update is forced, the time is unknown or zero, or a positive interval has passed; otherwise leave it |
| Git.ForceIgnoresTimestamp | pkg/gman/git.go:127-130 | a forced update does not depend on the timestamp |
| Git.GitUpdate | pkg/gman/git.go:119-145 | runs the clone sequence, the pull sequence or nothing, as `Decide` says |
| Config.Entry | pkg/gman/config.go:72-76 | `config.Repos[key]` is set exactly when the key is present with a non-nil value |
| Config.Parse | pkg/gman/config.go:62-71 | YAML first, JSON only when YAML fails; it fails only when both do, with JSON's error |
| Config.Read | pkg/gman/config.go:38-71 | "config dir not set", "config dir does not exist", no file when config.yaml does not exist, a read error, a parse error, or the parsed file |
| Config.ByUrl | pkg/gman/config.go:72-74 | the current repository changes only to the entry keyed by its non-empty URL |
| Config.RepoRulesAsWritten | pkg/gman/config.go:72-77 | dereferences nil exactly when there is no repository after the first rule and the file has no `repo` |
| Config.NoRepoNoNameCrashes | pkg/gman/config.go:75-76 | without a repository, a file without `repo` crashes |
| Config.RepoRules | pkg/gman/config.go:72-77 | a repository is never unset; a missing or URL-less repository is replaced by the entry `repo` names; without such an entry only the first rule applies |
| Config.RepoRulesAgree | pkg/gman/config.go:72-77 | wherever the code as written does not crash, it agrees with `RepoRules` |
| Config.NoReposKeepsRepo | pkg/gman/config.go:72-77 | a file without repositories keeps the current one |
| Config.Overlay | pkg/gman/config.go:72-108 | the repository follows `RepoRules`, and `open` sets both open-on-failure flags to its value |
| Config.OverlayFields | pkg/gman/config.go:82-108 | every present setting overwrites its field and every absent one keeps it |
| Config.BlankChangesNothing | pkg/gman/config.go:78-108 | a file that sets nothing changes nothing |
| Config.OverlayTwice | pkg/gman/config.go:78-108 | loading a file twice changes no setting other than the repository beyond what one load does |
| Config.LaterFileWins | pkg/gman/config.go:78-108 | of two files, every setting but the repository is the later file's value when present, else the earlier file's, else the session's; `open` does so for both flags |
| Config.Apply | pkg/gman/config.go:72-108 | the field-by-field assignments produce `Overlay` of the old settings |
| Config.LoadConfig | pkg/gman/config.go:35-111 | every error, and a missing config.yaml, changes nothing; a parsed file changes the settings to their `Overlay`, which uses the corrected repository rule (see "## Left out") |
| Output.StringInSlice | internal/output/apps.go:61-68 | true exactly when the string is in the slice |
| Output.CollectNamespaces | internal/output/apps.go:71-76 | the collection loop yields the first occurrences of the apps' namespaces |
| Output.NamespaceListing | internal/output/apps.go:70-117 | every app's namespace is listed once and nothing else is |
| Output.AppsText | internal/output/apps.go:28-47 | "No apps found" for no apps; otherwise one row per app, with namespace and name when no namespace is selected, else the name only |
| Output.PrintApps | internal/output/apps.go:49-59 | "text" gives the text listing, "json" and "yaml" encode the apps, anything else prints nothing |
| Output.NamespacesText | internal/output/apps.go:100-117 | "No apps found" for no apps; otherwise one row per collected namespace |
| Output.PrintNamespaces | internal/output/apps.go:119-129 | "text" gives the table, "json" and "yaml" encode the collected namespaces, anything else prints nothing |
| Sidebars.ReplaceFirstAbsent | internal/web/web/sidebars.js:80-82 | `replace` with a pattern that does not occur changes nothing |
| Sidebars.ReplaceFirstAt | internal/web/web/sidebars.js:80-82 | `replace` changes only the first occurrence and keeps what follows |
| Sidebars.FilesAreTheFiles | internal/web/web/sidebars.js:33-49 | a path is listed exactly when it is a file somewhere in the tree: directories are entered, never listed |
| Sidebars.WalkSync | internal/web/web/sidebars.js:33-49 | the loop with its recursive calls lists the files depth first in directory order |
| Sidebars.Locate | internal/web/web/sidebars.js:61-71 | a file counts exactly when the path, with the docs directory removed, has a fourth '/'-segment ending in ".md"; namespace, app and doc name are the second, third and fourth segments |
| Sidebars.LocateDoc | internal/web/web/sidebars.js:60-83 | a file at `/ns/app/d` below the docs directory, `d` ending in ".md", is recorded under `ns`, `app` and `d` without its first ".md", with id `ns/app/` followed by that doc name, provided ".md" does not occur in `ns/app/` (otherwise the id's ".md" is removed from the directories instead) |
| Sidebars.DroppedDocsDir | internal/web/web/sidebars.js:61 | `replace(DOCS_DIR, '')` on a path that starts with the docs directory leaves the rest of the path |
| Sidebars.ReplaceFirstPastDirs | internal/web/web/sidebars.js:82 | removing the first ".md" leaves the directories in front of the last segment alone when they hold no ".md" |
| Sidebars.ReplaceFirstAfterPlain | internal/web/web/sidebars.js:71-82 | when the pattern's first character does not occur before an occurrence, that occurrence is the one replaced |
| Sidebars.IndexIdIsReadme | internal/web/web/sidebars.js:88-91 | for a clean docs directory that is not "." and has no trailing '/', the index entry is "README" |
| Sidebars.StripIndexPath | internal/web/web/sidebars.js:91 | removing the directory, the first '/' and the first extension from `dir/name.ext` leaves `name` |
| FilePath.JoinClean | internal/web/web/sidebars.js:88 | joining an ordinary name onto a clean directory that is not "." and has no trailing '/' is concatenation with '/' |
| Strings.SplitAppend | internal/web/web/sidebars.js:63 | splitting `a/b`, with no '/' in `b`, gives the pieces of `a` and then `b` |
| Sidebars.TopLevelFileSkipped | internal/web/web/sidebars.js:63-70 | a file directly in the docs directory, such as the root README, enters no category |
| Sidebars.GroupNamespaces | internal/web/web/sidebars.js:57-74 | the Set holds the counted namespaces once each in first-appearance order, the same order as the keys of `apps` |
| Sidebars.OneCategoryPerNamespace | internal/web/web/sidebars.js:93-115 | no namespace repeats, and exactly the counted namespaces are present |
| Sidebars.RecordAssigns | internal/web/web/sidebars.js:73-83 | a file's id is stored under its namespace, app and doc name, replacing an earlier one; every other entry is unchanged |
| Sidebars.SkippedChangesNothing | internal/web/web/sidebars.js:67-70 | a file that does not count leaves the grouping as it was |
| Sidebars.LaterFileWins | internal/web/web/sidebars.js:83 | the last file with the same namespace, app and doc name decides the id |
| Sidebars.SidebarShape | internal/web/web/sidebars.js:85-116 | the index entry comes first exactly when the index file exists, followed by one category per namespace in first-appearance order |
| Sidebars.CategoriesShape | internal/web/web/sidebars.js:93-115 | the categories follow the namespaces one for one, each captioned with its namespace |
| Sidebars.SidebarOfShape | internal/web/web/sidebars.js:85-116 | from any grouping: the index entry first exactly when it exists, then one category per namespace of the Set |
| Sidebars.GroupFiles | internal/web/web/sidebars.js:57-84 | the forEach leaves the Set and the nested object as `Group` says |
| Sidebars.DocEntries | internal/web/web/sidebars.js:105-111 | one doc item per doc name with its id and name, in insertion order |
| Sidebars.AppEntries | internal/web/web/sidebars.js:99-113 | one app category per app, in insertion order |
| Sidebars.NamespaceEntries | internal/web/web/sidebars.js:93-115 | one category per namespace of the Set, in Set order |
| Sidebars.DocsSidebar | internal/web/web/sidebars.js:51-117 | the sidebar of the walked tree: `Sidebar` of the files the walk lists |

## Left out

- Logging, printing, OpenURL's process launch, `PagerPrint` and `RenderPandoc` are not modelled. Opening a URL is the `urlOpened` flag of a result.
- Goroutines and channels: the worker pools are the `Drain` loop over an arbitrary delivery order. Worker scheduling itself is not modelled.
- HTTP, netrc credentials (`AuthForDomain`), `os.Stat`, `os.ReadFile`, `filepath.Walk`, `url.Parse`, `url.ParseRequestURI`, `regexp` and the YAML/JSON decoders are oracles whose answers are inputs. The netrc lookup is folded into the `get` oracle, and so one `get(url, followRedirects)` answers both the plain `http.Get` of `Release.Readme` (pkg/release/release.go:103) and the requests of `GetRemote` and `getRemoteImageContent` that carry a netrc token (internal/utils/utils.go:101, 223); the model cannot give them different answers for the same URL.
- Catalog.Gman.ListApps: the order between apps with equal keys after an unstable `sort.Slice` is not fixed. The contract promises only a permutation sorted by the last key.
- A nil `g.Repo` in `RepoDir`, `GitClone` and `GitPull` dereferences nil. The model passes the repository as a value, so that crash is not modelled.
- Git.LastUpdated: the error text for a missing FETCH_HEAD is a placeholder. Only whether there is an error matters to `GitUpdate`.
- Time is an integer count of nanoseconds, and the zero time is 0. `time.Duration` overflow in `lastUpdated.Add(interval)` is not modelled.
- Config.Parse: a failed YAML decode may leave fields in the struct before the JSON decode runs. The model treats each decoder as all-or-nothing.
- Output.PrintApps: the JSON and YAML encoders and the table renderer are not modelled; the output is the value handed to them. An encoder error cannot occur for these types. A nil namespace list encodes as JSON `null`, and that is not distinguished from an empty one.
- Sidebars.GroupFiles: JavaScript's object key order (integer-like keys first) and keys that clash with built-in properties (`__proto__`, or `length` on the per-namespace array) are not modelled. Keys keep insertion order.
- Sidebars.WalkSync: `fs.readdirSync` and `fs.statSync` throw when the docs directory is unset, missing or unreadable, or an entry is a dangling symlink; nothing catches the exception, so loading the sidebars fails. The `Node` tree is a successful walk and cannot express these failures.
- Sidebars.DocsSidebar: `fs.existsSync` of the index file is the `indexExists` flag, and `process.env.DOCS_DIR` is the `docsDir` parameter. Node's `path.join` is modelled by Go's `filepath.Join`.
- Config.LoadConfig: at pkg/gman/config.go:75, a session with no repository and a config.yaml without a `repo` key dereferences a nil pointer. The model's `Overlay` uses the corrected rule `RepoRules` and does not crash there; the code as written is `RepoRulesAsWritten` (see "## Findings"). The program's only caller sets `m.Repo` just before calling `LoadConfig` (cmd/gman/gman.go:263-267), so the crash is not reached through it.
- Semver: `IsValid`, `Parse` and `Compare` accept only "vMAJOR", "vMAJOR.MINOR" and "vMAJOR.MINOR.PATCH". golang.org/x/mod/semver also accepts pre-release and build suffixes ("v1.0.0-rc1", "v1.0.0+b") and orders pre-releases below their release. For a release list whose first name has such a suffix, the code re-sorts (pkg/release/release.go:86-89, 134-137) but the model keeps walk order, and such names compare as invalid.
- Strings.TrimSpace: trims only ASCII white space (space, tab, newline, vertical tab, form feed, carriage return). Go's `strings.TrimSpace` also trims U+0085, U+00A0 and the other Unicode spaces. So `IsOnlyUrl` and `GetRemote` differ from the code for text padded with such characters.
- `ListReleases` is a read of the `releases` field and has no member of its own.
- cmd/gman/gman.go, pkg/gman/server.go, internal/web/web.go and internal/output/releases.go are not part of this model.

## Findings

| source | as written | input that shows it | evidently intended | confidence | as-written member | corrected member |
|---|---|---|---|---|---|---|
| pkg/gman/config.go:75 | `g.Repo == nil \|\| g.Repo.URL == "" && config.Repo != nil && ...` groups as `nil \|\| (empty && named)`, so a nil `g.Repo` reads `*config.Repo` even when the file has no `repo` | a Gman with no repository and a config.yaml without a `repo` key | `(g.Repo == nil \|\| g.Repo.URL == "") && config.Repo != nil && config.Repos[*config.Repo] != nil` | medium, not executed | Config.RepoRulesAsWritten, Config.NoRepoNoNameCrashes | Config.RepoRules, Config.RepoRulesAgree |

`Config.LoadConfig` uses the corrected rules.
