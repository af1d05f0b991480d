/** The directory-tree walker of walker.go: its configuration, its filters and
    its depth-bounded, pre-order traversal.

    The filesystem is an in-memory tree. The two callbacks and the error logger
    are recorded as events of a trace, in the order the walker issues them; the
    directory callback's error answer is a caller-supplied predicate on paths. */
module TreeWalker {
  import opened Util
  import opened FilePath

  datatype Option<T> = None | Some(value: T)

  /** `WalkerConfig`, without its loggers. */
  datatype WalkerConfig = WalkerConfig(exts: seq<string>, ignorePaths: seq<string>, dotFiles: bool, maxDepth: int)

  /** `Walker`: the resolved filter state. It is never changed after construction. */
  datatype Walker = Walker(exts: map<string, bool>, dotFiles: bool, maxDepth: int, ignorePaths: map<string, bool>)

  /** A filesystem entry. Listing a `File`, or a `Dir` that is not readable, fails. */
  datatype Node = File(name: string) | Dir(name: string, children: seq<Node>, readable: bool)

  /** What the walker does that its caller can observe:
      `process(path, isDir)`, `doForDir(path)` and an error log line about `path`. */
  datatype Event = Leaf(path: Path, isDir: bool) | DirVisit(path: Path) | LogErr(path: Path)

  /** The walker built by `NewWalker` from a configuration. */
  function WalkerOf(cfg: WalkerConfig): Walker {
    Walker(MembershipOf(cfg.exts), cfg.dotFiles, cfg.maxDepth, MembershipOf(cfg.ignorePaths))
  }

  /** `NewWalker`: each slice becomes a membership map, the flag and the depth are copied. */
  method NewWalker(cfg: WalkerConfig) returns (w: Walker)
    ensures w == WalkerOf(cfg)
    ensures forall e :: Lookup(w.exts, e) <==> e in cfg.exts
    ensures forall n :: Lookup(w.ignorePaths, n) <==> n in cfg.ignorePaths
    ensures w.dotFiles == cfg.dotFiles && w.maxDepth == cfg.maxDepth
  {
    var exts := ArrayToMap(cfg.exts);
    var ignorePaths := ArrayToMap(cfg.ignorePaths);
    w := Walker(exts, cfg.dotFiles, cfg.maxDepth, ignorePaths);
  }

  /** `ignoreEntry`: an entry is skipped by its base name alone, when it is a
      dot-entry and dot-entries are excluded, or when it is in the ignore set. */
  predicate IgnoreEntry(w: Walker, path: Path) {
    (!w.dotFiles && HasPrefix(Base(path), ".")) || Lookup(w.ignorePaths, Base(path))
  }

  /** The filter sees only the base name: the loop's test on a child's bare name
      and `walk`'s test on its joined path agree. */
  lemma IgnoreEntryOfJoin(w: Walker, dir: Path, name: string)
    ensures IgnoreEntry(w, Join(dir, name)) == IgnoreEntry(w, [name])
  {
  }

  /** For a walker `NewWalker` built, an entry is skipped exactly when its base
      name is a dot-name while dot-entries are excluded, or is in the ignore slice. */
  lemma IgnoreEntryConfigured(cfg: WalkerConfig, path: Path)
    ensures IgnoreEntry(WalkerOf(cfg), path) <==>
      (!cfg.dotFiles && HasPrefix(Base(path), ".")) || Base(path) in cfg.ignorePaths
  {
  }

  /** `getExt`: the lower-cased text after the extension's dot. */
  function GetExt(name: string): string {
    var e := Ext(name);
    if e == "" then "" else ToLower(e[1..])
  }

  /** A non-empty extension is the lower-cased text after a dot that has no dot
      and no separator after it; it holds no dot and no upper-case letter. */
  lemma GetExtIsLoweredSuffix(name: string)
    ensures var ext := GetExt(name);
      && (forall i | 0 <= i < |ext| :: ext[i] != '.' && !IsUpper(ext[i]))
      && (ext != [] ==> ExtStart(name, |name| - |ext| - 1) && ext == ToLower(name[|name| - |ext|..]))
  {
    ExtIsFinalDotSuffix(name);
  }

  /** The extension after a dot that begins it is the rest of the name, lower-cased. */
  lemma GetExtFromDot(name: string, k: int)
    requires ExtStart(name, k)
    ensures GetExt(name) == ToLower(name[k + 1..])
  {
    ExtFromDot(name, k);
    assert name[k..][1..] == name[k + 1..];
  }

  /** A name has an empty extension exactly when it has no dot after its last
      separator, or when it ends with a dot. */
  lemma GetExtEmpty(name: string)
    ensures GetExt(name) == [] <==>
      (forall k | 0 <= k < |name| :: !ExtStart(name, k)) || (name != [] && name[|name| - 1] == '.')
  {
    ExtIsFinalDotSuffix(name);
    EmptyExtNoDot(name);
  }

  /** `os.ReadDir` on the entry: its children in listing order, or a failure. */
  function ReadDir(node: Node): (r: Option<seq<Node>>)
    ensures r.Some? <==> node.Dir? && node.readable
    ensures r.Some? ==> r.value == node.children
  {
    if node.Dir? && node.readable then Some(node.children) else None
  }

  /** Whether a child regular file is passed to `process(pth, false)`. */
  predicate FileMatches(w: Walker, name: string) {
    var ext := GetExt(name);
    !IgnoreEntry(w, [name]) && |ext| > 0 && Lookup(w.exts, ext)
  }

  /** The events of `walk(path, depth)` on `node`. */
  function WalkTrace(w: Walker, dirErr: Path -> bool, node: Node, path: Path, depth: int): seq<Event>
    decreases node, 1
  {
    if IgnoreEntry(w, path) then []
    else if depth > w.maxDepth then [Leaf(path, true)]
    else if dirErr(path) then [DirVisit(path)]
    else
      match ReadDir(node)
      case None => [DirVisit(path), LogErr(path)]
      case Some(files) => [DirVisit(path)] + ChildrenTrace(w, dirErr, files, path, depth)
  }

  /** The events of the listing loop of a directory at `depth` over `files`. */
  function ChildrenTrace(w: Walker, dirErr: Path -> bool, files: seq<Node>, dir: Path, depth: int): seq<Event>
    decreases files, 0
  {
    if files == [] then []
    else
      ChildrenTrace(w, dirErr, files[..|files| - 1], dir, depth)
        + EntryTrace(w, dirErr, files[|files| - 1], dir, depth)
  }

  /** The events of one iteration of the listing loop. */
  function EntryTrace(w: Walker, dirErr: Path -> bool, file: Node, dir: Path, depth: int): seq<Event>
    decreases file, 2
  {
    var pth := Join(dir, file.name);
    if file.Dir? then WalkTrace(w, dirErr, file, pth, depth + 1)
    else if FileMatches(w, file.name) then [Leaf(pth, false)]
    else []
  }

  /** One more iteration of the listing loop appends that child's events. */
  lemma ChildrenTracePrefix(w: Walker, dirErr: Path -> bool, files: seq<Node>, dir: Path, depth: int, i: nat)
    requires i < |files|
    ensures ChildrenTrace(w, dirErr, files[..i + 1], dir, depth)
      == ChildrenTrace(w, dirErr, files[..i], dir, depth) + EntryTrace(w, dirErr, files[i], dir, depth)
  {
    assert files[..i + 1][..i] == files[..i];
  }

  lemma EntryTraceOfDir(w: Walker, dirErr: Path -> bool, file: Node, dir: Path, depth: int)
    requires file.Dir?
    ensures EntryTrace(w, dirErr, file, dir, depth) == WalkTrace(w, dirErr, file, Join(dir, file.name), depth + 1)
  {
  }

  lemma EntryTraceOfFile(w: Walker, dirErr: Path -> bool, file: Node, dir: Path, depth: int)
    requires file.File?
    ensures EntryTrace(w, dirErr, file, dir, depth) == if FileMatches(w, file.name) then [Leaf(Join(dir, file.name), false)] else []
  {
  }

  /** The recursive `walk` closure: filter, depth cut, `doForDir`, listing, and a
      loop over the children that descends into directories and reports
      matching files. */
  method Walk(w: Walker, dirErr: Path -> bool, node: Node, dir: Path, depth: int) returns (trace: seq<Event>)
    ensures trace == WalkTrace(w, dirErr, node, dir, depth)
    decreases node
  {
    if IgnoreEntry(w, dir) {
      return [];
    }
    if depth > w.maxDepth {
      return [Leaf(dir, true)];
    }
    trace := [DirVisit(dir)];
    if dirErr(dir) {
      return;
    }
    var listing := ReadDir(node);
    if listing.None? {
      trace := trace + [LogErr(dir)];
      return;
    }
    var files := listing.value;
    for i := 0 to |files|
      invariant trace == [DirVisit(dir)] + ChildrenTrace(w, dirErr, files[..i], dir, depth)
    {
      var file := files[i];
      var pth := Join(dir, file.name);
      ChildrenTracePrefix(w, dirErr, files, dir, depth, i);
      if file.Dir? {
        EntryTraceOfDir(w, dirErr, file, dir, depth);
        var sub := Walk(w, dirErr, file, pth, depth + 1);
        trace := trace + sub;
        continue;
      }
      EntryTraceOfFile(w, dirErr, file, dir, depth);
      var ext := GetExt(file.name);
      if !IgnoreEntry(w, [file.name]) && |ext| > 0 && Lookup(w.exts, ext) {
        trace := trace + [Leaf(pth, false)];
      }
    }
    assert files[..|files|] == files;
  }

  /** `WalkAndDo`: walk the tree from `root` at depth 0; the result is always nil. */
  method WalkAndDo(w: Walker, root: Path, tree: Node, dirErr: Path -> bool) returns (trace: seq<Event>, err: Option<string>)
    ensures trace == WalkTrace(w, dirErr, tree, root, 0)
    ensures err == None
  {
    trace := Walk(w, dirErr, tree, root, 0);
    err := None;
  }
}
