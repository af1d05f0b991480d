# Directory-tree walker

A Dafny model of the `walker` Go package: a configurable, depth-bounded
directory-tree walker. `NewWalker` resolves a configuration into a filter
state. It turns the extension and ignore slices into membership maps with
`arrayToMap`. `WalkAndDo` then walks a tree from a root, depth first:

- filtered entries (dot-entries, ignored base names) are pruned first;
- an entry past `maxDepth` is reported as a truncated leaf through the file
  callback, with `isDir = true`;
- the directory callback `doForDir` runs before the directory is listed, and
  its error prunes that branch;
- a listing failure is logged and prunes that branch;
- inside a listing, subdirectories are walked at `depth + 1`, and regular
  files are reported when they pass the filter and their lower-cased
  extension is non-empty and in the configured set.

How the model is built:

- The filesystem is an inductive tree (`TreeWalker.Node`).
- A path is a sequence of name components (`FilePath.Path`). `filepath.Join`
  appends a component and `filepath.Base` takes the last one.
- What the walker does that a caller can observe (`process`, `doForDir`, the
  error log) is recorded as a trace of `TreeWalker.Event`s.
- The error answer of `doForDir` is a caller-supplied predicate on paths.
- The `walk` closure is the recursive method `TreeWalker.Walk`. Its loop over
  the listing is proved to build exactly the trace of the recursive
  specification `TreeWalker.WalkTrace`. All traversal properties are stated
  about that specification in the module `WalkerProperties`.
- `arrayToMap` is the loop method `Util.ArrayToMap`, proved equal to the map
  comprehension `Util.MembershipOf`. `Util.Lookup` models Go's lookup, which
  answers `false` for a missing key.
- The module `WalkerCompleteness` proves that a walk misses nothing it
  reaches and, on a tree whose directories never list two children under one
  name, reports each entry exactly once.
- The module `WalkerScenarios` replays the two tests of `walker_test.go`, and
  the case-sensitivity examples, as concrete lemmas over a literal tree.

Files:

- `util.dfy`: module `Util` (util.go).
- `filepath.dfy`: module `FilePath`. It holds the parts of `path/filepath`
  and `strings` the walker uses.
- `walker.dfy`: module `TreeWalker` (walker.go).
- `walker_props.dfy`: module `WalkerProperties`, properties of the traversal.
- `walker_complete.dfy`: module `WalkerCompleteness`, completeness and
  uniqueness of a whole walk.
- `walker_scenarios.dfy`: module `WalkerScenarios`, the tests and examples.

Two consequences of the code worth knowing:

- Configured extensions are kept as given (walker.go:43); only the file's
  side is lower-cased (walker.go:126). So a configured extension holding an
  upper-case letter matches no file
  (`WalkerProperties.UpperCaseExtNeverMatches`).
- `filepath.Base(".")` is `"."`, so with dot-entries excluded, walking `.`
  reports nothing (`WalkerScenarios.DotRootWalksNothing`).

## Model

| member | source | states |
|---|---|---|
| Util.ArrayToMap | util.go:3-9 | The filled map is the membership map of the slice: every element maps to `true`, every key is an element, every stored value is `true`, a lookup answers `true` exactly for elements, and an empty slice gives an empty map |
| Util.Lookup | walker.go:97 | Go's index of a `map[string]bool`: the stored value, or `false` for a missing key; `Util.ArrayToMap` and `TreeWalker.NewWalker` state what it answers on the walker's maps |
| Util.MembershipOfSameElements | util.go:4-8 | Two slices with the same elements give the same map: duplicates collapse and order does not matter |
| Util.MembershipOfKeys | util.go:4-8 | The key set is exactly the element set; a key looks up as `true` exactly when it is an element; every stored value is `true` |
| FilePath.Join | walker.go:89 | The joined path's base name is the entry's name, and the directory is a proper prefix of it |
| FilePath.Base | walker.go:109 | The last component of a path, `"."` for the empty path; `FilePath.Join` states that the base of a joined path is the joined name |
| FilePath.HasPrefix | walker.go:109 | `strings.HasPrefix`: the prefix is an initial segment of the string; `TreeWalker.IgnoreEntryConfigured` states the dot-name test through it |
| FilePath.Ext | walker.go:122 | `filepath.Ext`, the suffix from the final dot of the last element; its meaning is stated by `FilePath.ExtIsFinalDotSuffix`, `FilePath.ExtFromDot` and `FilePath.EmptyExtNoDot` |
| FilePath.ExtIsFinalDotSuffix | walker.go:122 | A non-empty `filepath.Ext` is the suffix starting at a dot that has no dot and no separator after it |
| FilePath.EmptyExtNoDot | walker.go:122-125 | An empty `filepath.Ext` means no dot of the name begins an extension |
| FilePath.ExtFromDot | walker.go:122 | A dot with no dot and no separator after it begins `filepath.Ext` |
| FilePath.LowerChar | walker.go:126 | An upper-case ASCII letter becomes the same letter in lower case; every other character is unchanged; the result is never upper-case |
| FilePath.ToLower | walker.go:126 | Lower-casing keeps the length |
| TreeWalker.WalkerOf | walker.go:41-52 | The walker a configuration resolves to; `TreeWalker.NewWalker` states what its maps answer |
| TreeWalker.NewWalker | walker.go:41-52 | The walker's extension and ignore maps answer `true` exactly for the configured slices' elements; the dot-file flag and the depth limit are copied |
| TreeWalker.IgnoreEntry | walker.go:107-118 | The filter on an entry's base name; `TreeWalker.IgnoreEntryConfigured` and `TreeWalker.IgnoreEntryOfJoin` state what it decides |
| TreeWalker.IgnoreEntryConfigured | walker.go:107-118 | With a walker built from a configuration, an entry is filtered exactly when its base name starts with a dot while dot-entries are excluded, or its base name is in the ignore slice |
| TreeWalker.IgnoreEntryOfJoin | walker.go:89-97 | Filtering a joined path decides the same as filtering the bare name, so the check on `pth` inside `walk` and the one on `file.Name()` agree |
| TreeWalker.GetExt | walker.go:121-127 | `getExt`; its meaning is stated by `TreeWalker.GetExtIsLoweredSuffix`, `TreeWalker.GetExtFromDot` and `TreeWalker.GetExtEmpty` |
| TreeWalker.GetExtIsLoweredSuffix | walker.go:121-127 | `getExt` holds no dot and no upper-case letter; when non-empty, it is the lower-cased text after a dot that begins the extension |
| TreeWalker.GetExtFromDot | walker.go:121-127 | After such a dot, `getExt` is the rest of the name, lower-cased |
| TreeWalker.GetExtEmpty | walker.go:121-127 | `getExt` is empty exactly when no dot begins an extension or the name ends with a dot |
| TreeWalker.FileMatches | walker.go:97 | The test a listed regular file must pass; `WalkerProperties.FileChildReportedIff` and `WalkerProperties.FileMatchesConfigured` state what it decides |
| TreeWalker.WalkTrace | walker.go:65-101 | The events of `walk` on a node, as a specification; `TreeWalker.Walk` is proved to emit exactly it, and the modules `WalkerProperties` and `WalkerCompleteness` state its properties |
| TreeWalker.ChildrenTrace | walker.go:87-100 | The events of the listing loop over a run of children, in order |
| TreeWalker.EntryTrace | walker.go:88-99 | The events of one iteration of the listing loop: a recursive walk for a directory, one report or nothing for a file |
| TreeWalker.ChildrenTracePrefix | walker.go:87-100 | One more iteration of the listing loop appends exactly that child's events |
| TreeWalker.Walk | walker.go:65-101 | The events the recursive `walk` emits: filter, depth cut, `doForDir`, listing or log, then the loop that recurses into directories and reports matching files; all of it equals the specification trace `WalkTrace` |
| TreeWalker.WalkAndDo | walker.go:61-104 | Walks the tree from the root at depth 0, emitting the specification trace, and always returns nil |
| WalkerProperties.WalkTracePlaced | walker.go:65-101 | Every event of a walk lies at or below the walked path, with its depth bounded by the limit as `Placed` states |
| WalkerProperties.ChildrenTracePlaced | walker.go:87-100 | Events of a listing loop lie strictly below the directory, and truncated leaves under it lie exactly one level past the limit |
| WalkerProperties.WalkDepths | walker.go:61-104 | From the root at depth 0: `doForDir` calls and error logs are within `maxDepth` levels; a truncated leaf is exactly one level past the limit, or is the root when `maxDepth < 0`; reported files are below the root and at most one level past the limit |
| WalkerProperties.WalkTraceUnfiltered | walker.go:66-68 | No event is about a path that the filter rejects at any level from the walked path down |
| WalkerProperties.ChildrenTraceUnfiltered | walker.go:87-100 | The same, for the events of a listing loop, for every level below the directory |
| WalkerProperties.ExcludedNamesNeverAppear | walker.go:107-118 | With a walker built from a configuration: an ignored or excluded dot-named root yields no event at all, and no event path passes through an ignored name, or through a dot-name while dot-entries are excluded |
| WalkerProperties.WalkTraceAncestorsFirst | walker.go:75-78 | Pre-order: before any event, `doForDir` was called on each of its ancestors from the walked path down, and none of them answered with an error |
| WalkerProperties.ChildrenTraceAncestorsFirst | walker.go:87-100 | Pre-order within a listing loop, for the ancestors strictly below the directory |
| WalkerProperties.WalkTraceFilesMatch | walker.go:96-99 | Every file reported with `isDir = false` lies strictly below the walked path, and its base name passes the filter and the extension check |
| WalkerProperties.ChildrenTraceFilesMatch | walker.go:96-99 | The same, for the events of a listing loop |
| WalkerProperties.EmptyExtsReportNoFiles | walker.go:43 | With an empty extension slice, no regular file is ever reported |
| WalkerProperties.WalkTraceLogFollowsVisit | walker.go:80-84 | Every error log immediately follows the `doForDir` call on the same path |
| WalkerProperties.ChildrenTraceLogFollowsVisit | walker.go:87-100 | The same, within a listing loop |
| WalkerProperties.ChildrenTraceAppend | walker.go:87-100 | The loop's events over two runs of children are the concatenation of each run's events |
| WalkerProperties.SiblingsWalked | walker.go:87-100 | A child is walked whatever happened before it: the loop's events are those of the earlier children, then this child's, then the later ones' |
| WalkerProperties.DescendedTrace | walker.go:75-87 | A directory that is descended into yields its `doForDir` call, then its listing loop |
| WalkerProperties.ChildrenBlock | walker.go:87-100 | Within the listing loop, each child's events form one contiguous block right after the earlier children's events |
| WalkerProperties.ChildBlock | walker.go:87-100 | In a directory that is descended into, each child's events form one contiguous block after the `doForDir` call and the earlier children's events |
| WalkerProperties.ChildEventInParent | walker.go:87-100 | Every event of a child's iteration is an event of the directory's walk |
| WalkerProperties.ChildrenOfDescendedDirectory | walker.go:87-100 | In a directory that is descended into: an unfiltered subdirectory within the limit gets its `doForDir` call, one past the limit is a truncated leaf, and a matching file is reported |
| WalkerProperties.FilteredEntryIsSilent | walker.go:66-68 | A filtered entry produces no event at all |
| WalkerProperties.TruncatedEntryIsOneLeaf | walker.go:69-72 | An unfiltered entry past the limit yields exactly one `process(path, true)` and nothing else |
| WalkerProperties.VisitComesFirst | walker.go:75-91 | An unfiltered entry within the limit starts with its `doForDir` call; when it is descended into (callback and listing succeed), every later event is strictly beneath it |
| WalkerProperties.RejectedDirectoryStops | walker.go:75-78 | A directory whose `doForDir` fails yields that call alone: no listing, no log, no child events |
| WalkerProperties.UnreadableEntryLogsOnce | walker.go:80-84 | An entry whose listing fails yields its `doForDir` call and exactly one error log |
| WalkerProperties.FileChildReportedIff | walker.go:96-99 | A child regular file yields at most one event, `process(pth, false)`, and yields it exactly when it is unfiltered and its extension is non-empty and in the set |
| WalkerProperties.FileMatchesConfigured | walker.go:97 | With a walker built from a configuration, a file matches exactly when its name is not ignored, not an excluded dot-name, and its extension is non-empty and configured |
| WalkerProperties.UpperCaseExtNeverMatches | walker.go:126 | A configured extension with an upper-case letter equals no file's extension |
| WalkerCompleteness.RouteReported | walker.go:65-100 | Completeness: an entry reached through directories the walk descends into gets its `doForDir` call when it is an unfiltered directory within the limit, is a truncated leaf when it is one past the limit, and is reported when it is a matching regular file |
| WalkerCompleteness.ChildrenTraceNames | walker.go:87-100 | Every event of the listing loop is about a path strictly below the directory whose next component is one of the listed names |
| WalkerCompleteness.WalkTraceNoDuplicates | walker.go:65-101 | On a tree with distinct child names, no event of a walk occurs twice |
| WalkerCompleteness.ChildrenTraceNoDuplicates | walker.go:87-100 | The same, for the events of a listing loop over children with distinct names |
| WalkerCompleteness.WalkReportsEachOnce | walker.go:61-104 | A whole walk from the root over a tree with distinct child names: every event occurs once; every reached unfiltered directory within the limit gets exactly one `doForDir` call, one past the limit exactly one truncated leaf, and every reached matching file exactly one `process(pth, false)` |
| WalkerScenarios.PlainNameNotIgnored | walker.go:107-118 | With no ignore list, an entry whose base name does not start with a dot is not filtered |
| WalkerScenarios.TxtExt | walker.go:121-127 | A name ending in `.txt` has extension `txt` |
| WalkerScenarios.UpperTxtExt | walker.go:121-127 | A name ending in `.TXT` has extension `txt` too |
| WalkerScenarios.NoDotNoExt | walker.go:121-127 | A name without a dot has an empty extension |
| WalkerScenarios.ExtensionsOfTestFiles | walker.go:121-127 | The extensions of the test files, of `REPORT.TXT`, and of `Makefile` |
| WalkerScenarios.ChildrenTraceOfOne | walker.go:87-100 | The loop over one child yields that child's events |
| WalkerScenarios.ChildrenTraceOfTwo | walker.go:87-100 | The loop over two children yields their events in order |
| WalkerScenarios.ChildrenTraceOfThree | walker.go:87-100 | The loop over three children yields their events in order |
| WalkerScenarios.MatchingFileEntry | walker.go:96-99 | A matching file yields one `process(pth, false)` |
| WalkerScenarios.TestDefault | walker_test.go:11-27 | With the zero configuration, the root of `testdata` gets the only `doForDir` call, and `dir1`, `dir2`, `dir3` are reported as truncated leaves |
| WalkerScenarios.TestFilesMatch | walker_test.go:32-35 | Under depth 1 and extension `txt`, the three test files match |
| WalkerScenarios.Dir1Trace | walker_test.go:45-47 | `dir1` at depth 1 is visited and both of its files are reported |
| WalkerScenarios.Dir2Trace | walker_test.go:45-47 | `dir2` at depth 1 is visited and its file is reported |
| WalkerScenarios.Dir3Trace | walker_test.go:45-47 | `dir3` at depth 1 is visited and `dir3_1` is a truncated leaf |
| WalkerScenarios.TestDepth | walker_test.go:29-48 | With depth 1 and extension `txt`: `doForDir` on `testdata`, `dir1`, `dir2`, `dir3`; the three `.txt` files reported; `dir3_1` a truncated leaf; all in walk order |
| WalkerScenarios.ExtensionCase | walker.go:97 | `REPORT.TXT` matches a configured `txt`, a configured `TXT` matches nothing, and `Makefile` matches nothing |
| WalkerScenarios.DotRootWalksNothing | walker.go:109 | With dot-entries excluded, walking `.` produces no event at all |
| WalkerScenarios.DuplicateNamesVisitTwice | walker.go:87-93 | Without distinct names the walk does repeat itself: a directory listing two empty subdirectories named `a` gets two `doForDir` calls on `r/a` |

## Left out

- `os.ReadDir` is not called. A directory's listing is its `children` sequence in the given order, and the library's sorting by name is not modelled. Listing fails on a `File` node and on a `Dir` whose `readable` flag is false.
- The `testdata` directory is not part of this model. The tree in `WalkerScenarios.Testdata` is the one the tests' expectations describe.
- `filepath.Join` and `filepath.Clean` are modelled on component sequences: `./testdata/dir1` is `[".", "testdata", "dir1"]`. Separators, trailing slashes and cleaning of the joined string are not modelled. `filepath.Base` is the last component, or `"."` for the empty path.
- `DirEntry.IsDir`, symlinks and `Lstat` are not modelled; a node's kind is its constructor.
- FilePath.Ext: its own contract states only a length bound; what it computes is stated by the lemmas `FilePath.ExtIsFinalDotSuffix`, `FilePath.ExtFromDot` and `FilePath.EmptyExtNoDot`.
- FilePath.ToLower: lower-cases ASCII letters only, because Unicode case mapping is not available; its contract states only that the length is kept, and the lower-case facts the model needs are proved in `TreeWalker.GetExtIsLoweredSuffix`.
- The logger formatting at walker.go:82 is not modelled; the error log is a `LogErr` event. The `WARN` and `INFO` loggers (walker.go:49-50) are never used by the core and are omitted.
- The `ERROR` logger (walker.go:48) is assumed non-nil. With a nil one, as in the zero `WalkerConfig{}`, a listing failure makes `wkr.elog.Printf` at walker.go:82 panic: the walk is aborted, the remaining siblings are not walked and `WalkAndDo` does not return. The model instead logs and goes on. The `WalkerScenarios.TestDefault` tree has no listing failure, so it is unaffected.
- The callbacks' own effects are not modelled. `process` and `doForDir` are recorded as events, and the error answer of `doForDir` is a fixed predicate on paths, so it cannot depend on earlier calls.
- Go's `int` is modelled as an unbounded integer; depths never come near 64-bit overflow.
- There is no concurrency in the core.
