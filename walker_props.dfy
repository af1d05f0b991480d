/** What a walk promises about its trace of events: where events can occur,
    what the filters exclude, the pre-order of directory callbacks, and how
    branches stay independent of one another. */
module WalkerProperties {
  import opened Util
  import opened FilePath
  import opened TreeWalker

  /** The depth of the entry an event is about, for a walk of `path` at `depth`. */
  function EventDepth(e: Event, path: Path, depth: int): int {
    depth + |e.path| - |path|
  }

  /** An event of a walk of `path` at `depth` lies at or below `path`; directory
      callbacks and error logs are within the depth limit; a truncated leaf is
      the walked node itself or lies just past the limit; a reported file lies
      below `path` and at most one level past the limit. */
  ghost predicate Placed(w: Walker, e: Event, path: Path, depth: int) {
    path <= e.path &&
    var k := EventDepth(e, path, depth);
    match e
    case DirVisit(_) => k <= w.maxDepth
    case LogErr(_) => k <= w.maxDepth
    case Leaf(_, isDir) =>
      if isDir then w.maxDepth < k && (k == depth || k == w.maxDepth + 1)
      else depth < k <= w.maxDepth + 1
  }

  lemma {:induction false} WalkTracePlaced(w: Walker, dirErr: Path -> bool, node: Node, path: Path, depth: int)
    ensures forall e | e in WalkTrace(w, dirErr, node, path, depth) :: Placed(w, e, path, depth)
    decreases node, 1
  {
    if !IgnoreEntry(w, path) && depth <= w.maxDepth && !dirErr(path) && ReadDir(node).Some? {
      ChildrenTracePlaced(w, dirErr, node.children, path, depth);
    }
  }

  /** Below a directory walked within the limit, every truncated leaf lies
      exactly one level past the limit. */
  lemma {:induction false} ChildrenTracePlaced(w: Walker, dirErr: Path -> bool, files: seq<Node>, dir: Path, depth: int)
    requires depth <= w.maxDepth
    ensures forall e | e in ChildrenTrace(w, dirErr, files, dir, depth) ::
      Placed(w, e, dir, depth) && |dir| < |e.path| &&
      (e.Leaf? && e.isDir ==> EventDepth(e, dir, depth) == w.maxDepth + 1)
    decreases files, 0
  {
    if files != [] {
      var init, f := files[..|files| - 1], files[|files| - 1];
      ChildrenTracePlaced(w, dirErr, init, dir, depth);
      var pth := Join(dir, f.name);
      if f.Dir? {
        WalkTracePlaced(w, dirErr, f, pth, depth + 1);
        forall e | e in WalkTrace(w, dirErr, f, pth, depth + 1)
          ensures Placed(w, e, dir, depth) && |dir| < |e.path|
        {
          assert dir <= pth <= e.path;
        }
      }
    }
  }

  /** The depth accounting of a whole walk from `root` at depth 0: every
      directory callback and error log is within `maxDepth` levels of the root;
      every truncated leaf is exactly one level past it, except the root itself,
      which is cut when `maxDepth` is negative; every reported file is below the
      root and at most one level past the limit. */
  lemma WalkDepths(w: Walker, dirErr: Path -> bool, tree: Node, root: Path)
    ensures forall e | e in WalkTrace(w, dirErr, tree, root, 0) ::
      && root <= e.path
      && (e.DirVisit? || e.LogErr? ==> |e.path| - |root| <= w.maxDepth)
      && (e.Leaf? && e.isDir ==> |e.path| - |root| == w.maxDepth + 1 || (e.path == root && w.maxDepth < 0))
      && (e.Leaf? && !e.isDir ==> 0 < |e.path| - |root| <= w.maxDepth + 1)
  {
    WalkTracePlaced(w, dirErr, tree, root, 0);
  }

  /** Every path an event is about passes the filter at every level from the
      walked path down: nothing at or beneath a filtered name is reported. */
  lemma {:induction false} WalkTraceUnfiltered(w: Walker, dirErr: Path -> bool, node: Node, path: Path, depth: int)
    ensures forall e | e in WalkTrace(w, dirErr, node, path, depth) ::
      |path| <= |e.path| && forall i | |path| <= i <= |e.path| :: !IgnoreEntry(w, e.path[..i])
    decreases node, 1
  {
    WalkTracePlaced(w, dirErr, node, path, depth);
    if !IgnoreEntry(w, path) && depth <= w.maxDepth && !dirErr(path) && ReadDir(node).Some? {
      ChildrenTraceUnfiltered(w, dirErr, node.children, path, depth);
      forall e | e in WalkTrace(w, dirErr, node, path, depth)
        ensures forall i | |path| <= i <= |e.path| :: !IgnoreEntry(w, e.path[..i])
      {
        assert e.path[..|path|] == path;
      }
    }
  }

  lemma {:induction false} ChildrenTraceUnfiltered(w: Walker, dirErr: Path -> bool, files: seq<Node>, dir: Path, depth: int)
    ensures forall e | e in ChildrenTrace(w, dirErr, files, dir, depth) ::
      forall i | |dir| < i <= |e.path| :: !IgnoreEntry(w, e.path[..i])
    decreases files, 0
  {
    if files != [] {
      var init, f := files[..|files| - 1], files[|files| - 1];
      ChildrenTraceUnfiltered(w, dirErr, init, dir, depth);
      var pth := Join(dir, f.name);
      if f.Dir? {
        WalkTraceUnfiltered(w, dirErr, f, pth, depth + 1);
      } else if FileMatches(w, f.name) {
        assert pth[..|pth|] == pth && Base(pth) == Base([f.name]);
      }
    }
  }

  /** With the walker `NewWalker` builds: no event is about an entry whose path,
      from the root down, passes through an ignored name, or through a
      dot-prefixed name while dot-entries are excluded; and if the root itself
      is such an entry, nothing happens at all. */
  lemma ExcludedNamesNeverAppear(cfg: WalkerConfig, dirErr: Path -> bool, tree: Node, root: Path)
    ensures var t := WalkTrace(WalkerOf(cfg), dirErr, tree, root, 0);
      && ((Base(root) in cfg.ignorePaths || (!cfg.dotFiles && HasPrefix(Base(root), "."))) ==> t == [])
      && forall e, i | e in t && |root| <= i < |e.path| ::
           e.path[i] !in cfg.ignorePaths && (!cfg.dotFiles ==> !HasPrefix(e.path[i], "."))
  {
    var w := WalkerOf(cfg);
    WalkTraceUnfiltered(w, dirErr, tree, root, 0);
    forall e, i | e in WalkTrace(w, dirErr, tree, root, 0) && |root| <= i < |e.path|
      ensures e.path[i] !in cfg.ignorePaths && (!cfg.dotFiles ==> !HasPrefix(e.path[i], "."))
    {
      assert !IgnoreEntry(w, e.path[..i + 1]);
      assert Base(e.path[..i + 1]) == e.path[i];
    }
  }

  /** Pre-order: before any event about an entry, `doForDir` was called on each
      of its ancestors from the walked path down, and none of them answered
      with an error. So a directory whose callback fails has nothing beneath it
      reported. */
  ghost predicate AncestorsFirst(t: seq<Event>, from: nat, dirErr: Path -> bool) {
    forall j, k | 0 <= j < |t| && from <= k < |t[j].path| ::
      DirVisit(t[j].path[..k]) in t[..j] && !dirErr(t[j].path[..k])
  }

  lemma {:induction false} WalkTraceAncestorsFirst(w: Walker, dirErr: Path -> bool, node: Node, path: Path, depth: int)
    ensures AncestorsFirst(WalkTrace(w, dirErr, node, path, depth), |path|, dirErr)
    decreases node, 1
  {
    var t := WalkTrace(w, dirErr, node, path, depth);
    if !IgnoreEntry(w, path) && depth <= w.maxDepth && !dirErr(path) && ReadDir(node).Some? {
      var c := ChildrenTrace(w, dirErr, node.children, path, depth);
      assert t == [DirVisit(path)] + c;
      ChildrenTraceAncestorsFirst(w, dirErr, node.children, path, depth);
      ChildrenTracePlaced(w, dirErr, node.children, path, depth);
      assert AncestorsFirst(c, |path| + 1, dirErr);
      forall j, k | 0 <= j < |t| && |path| <= k < |t[j].path|
        ensures DirVisit(t[j].path[..k]) in t[..j] && !dirErr(t[j].path[..k])
      {
        assert j != 0;
        var e := c[j - 1];
        assert t[j] == e && e in c;
        assert t[..j] == [DirVisit(path)] + c[..j - 1];
        if k == |path| {
          assert e.path[..k] == path;
          assert t[0] == DirVisit(path);
        } else {
          assert DirVisit(e.path[..k]) in c[..j - 1] && !dirErr(e.path[..k]);
        }
      }
    }
  }

  lemma {:induction false} ChildrenTraceAncestorsFirst(w: Walker, dirErr: Path -> bool, files: seq<Node>, dir: Path, depth: int)
    ensures AncestorsFirst(ChildrenTrace(w, dirErr, files, dir, depth), |dir| + 1, dirErr)
    decreases files, 0
  {
    if files != [] {
      var init, f := files[..|files| - 1], files[|files| - 1];
      var a := ChildrenTrace(w, dirErr, init, dir, depth);
      var b := EntryTrace(w, dirErr, f, dir, depth);
      var t := a + b;
      ChildrenTraceAncestorsFirst(w, dirErr, init, dir, depth);
      var pth := Join(dir, f.name);
      if f.Dir? {
        WalkTraceAncestorsFirst(w, dirErr, f, pth, depth + 1);
      }
      assert AncestorsFirst(a, |dir| + 1, dirErr);
      assert f.Dir? ==> AncestorsFirst(b, |dir| + 1, dirErr);
      forall j, k | 0 <= j < |t| && |dir| < k < |t[j].path|
        ensures DirVisit(t[j].path[..k]) in t[..j] && !dirErr(t[j].path[..k])
      {
        if j < |a| {
          assert t[j] == a[j] && t[..j] == a[..j];
          assert DirVisit(a[j].path[..k]) in a[..j] && !dirErr(a[j].path[..k]);
        } else {
          var jb := j - |a|;
          assert t[j] == b[jb] && t[..j] == a + b[..jb];
          assert f.Dir?;
          assert DirVisit(b[jb].path[..k]) in b[..jb] && !dirErr(b[jb].path[..k]);
        }
      }
    }
  }

  /** Every file reported with `isDir = false` lies strictly below the walked
      path and its base name passes the filter and the extension check. */
  lemma {:induction false} WalkTraceFilesMatch(w: Walker, dirErr: Path -> bool, node: Node, path: Path, depth: int)
    ensures forall e | e in WalkTrace(w, dirErr, node, path, depth) && e.Leaf? && !e.isDir ::
      |path| < |e.path| && FileMatches(w, Base(e.path))
    decreases node, 1
  {
    if !IgnoreEntry(w, path) && depth <= w.maxDepth && !dirErr(path) && ReadDir(node).Some? {
      ChildrenTraceFilesMatch(w, dirErr, node.children, path, depth);
    }
  }

  lemma {:induction false} ChildrenTraceFilesMatch(w: Walker, dirErr: Path -> bool, files: seq<Node>, dir: Path, depth: int)
    ensures forall e | e in ChildrenTrace(w, dirErr, files, dir, depth) && e.Leaf? && !e.isDir ::
      |dir| < |e.path| && FileMatches(w, Base(e.path))
    decreases files, 0
  {
    if files != [] {
      var init, f := files[..|files| - 1], files[|files| - 1];
      ChildrenTraceFilesMatch(w, dirErr, init, dir, depth);
      if f.Dir? {
        WalkTraceFilesMatch(w, dirErr, f, Join(dir, f.name), depth + 1);
      }
    }
  }

  /** With an empty extension list, `NewWalker` builds a walker that never
      reports a regular file. */
  lemma EmptyExtsReportNoFiles(cfg: WalkerConfig, dirErr: Path -> bool, tree: Node, root: Path)
    requires cfg.exts == []
    ensures forall e | e in WalkTrace(WalkerOf(cfg), dirErr, tree, root, 0) :: !(e.Leaf? && !e.isDir)
  {
    WalkTraceFilesMatch(WalkerOf(cfg), dirErr, tree, root, 0);
  }

  /** Each error log immediately follows the `doForDir` call on the same path. */
  ghost predicate LogFollowsVisit(t: seq<Event>) {
    forall j | 0 <= j < |t| && t[j].LogErr? :: 0 < j && t[j - 1] == DirVisit(t[j].path)
  }

  lemma {:induction false} WalkTraceLogFollowsVisit(w: Walker, dirErr: Path -> bool, node: Node, path: Path, depth: int)
    ensures LogFollowsVisit(WalkTrace(w, dirErr, node, path, depth))
    decreases node, 1
  {
    var t := WalkTrace(w, dirErr, node, path, depth);
    if !IgnoreEntry(w, path) && depth <= w.maxDepth && !dirErr(path) && ReadDir(node).Some? {
      var c := ChildrenTrace(w, dirErr, node.children, path, depth);
      assert t == [DirVisit(path)] + c;
      ChildrenTraceLogFollowsVisit(w, dirErr, node.children, path, depth);
      assert LogFollowsVisit(c);
      forall j | 0 <= j < |t| && t[j].LogErr?
        ensures 0 < j && t[j - 1] == DirVisit(t[j].path)
      {
        assert j != 0;
        if j > 1 {
          assert t[j] == c[j - 1] && t[j - 1] == c[j - 2];
        }
      }
    }
  }

  lemma {:induction false} ChildrenTraceLogFollowsVisit(w: Walker, dirErr: Path -> bool, files: seq<Node>, dir: Path, depth: int)
    ensures LogFollowsVisit(ChildrenTrace(w, dirErr, files, dir, depth))
    decreases files, 0
  {
    if files != [] {
      var init, f := files[..|files| - 1], files[|files| - 1];
      var a := ChildrenTrace(w, dirErr, init, dir, depth);
      var b := EntryTrace(w, dirErr, f, dir, depth);
      var t := a + b;
      ChildrenTraceLogFollowsVisit(w, dirErr, init, dir, depth);
      if f.Dir? {
        WalkTraceLogFollowsVisit(w, dirErr, f, Join(dir, f.name), depth + 1);
      }
      assert LogFollowsVisit(a);
      assert f.Dir? ==> LogFollowsVisit(b);
      forall j | 0 <= j < |t| && t[j].LogErr?
        ensures 0 < j && t[j - 1] == DirVisit(t[j].path)
      {
        if j < |a| {
          assert t[j] == a[j];
          assert 0 < j && a[j - 1] == DirVisit(a[j].path);
          assert t[j - 1] == a[j - 1];
        } else {
          var jb := j - |a|;
          assert t[j] == b[jb];
          assert f.Dir?;
          assert 0 < jb && b[jb - 1] == DirVisit(b[jb].path);
          assert t[j - 1] == b[jb - 1];
        }
      }
    }
  }

  /** The listing loop's events are the concatenation of each child's events:
      what happens in one branch never changes what happens in another. */
  lemma {:induction false} ChildrenTraceAppend(w: Walker, dirErr: Path -> bool, a: seq<Node>, b: seq<Node>, dir: Path, depth: int)
    ensures ChildrenTrace(w, dirErr, a + b, dir, depth)
      == ChildrenTrace(w, dirErr, a, dir, depth) + ChildrenTrace(w, dirErr, b, dir, depth)
    decreases |b|
  {
    if b == [] {
      assert a + b == a;
    } else {
      var init := b[..|b| - 1];
      assert (a + b)[..|a + b| - 1] == a + init;
      assert (a + b)[|a + b| - 1] == b[|b| - 1];
      ChildrenTraceAppend(w, dirErr, a, init, dir, depth);
    }
  }

  /** A sibling is walked whatever happened to the children listed before it:
      the loop's events are those of the children before index `i`, then
      child `i`'s own, then those of the children after it. */
  lemma SiblingsWalked(w: Walker, dirErr: Path -> bool, files: seq<Node>, dir: Path, depth: int, i: nat)
    requires i < |files|
    ensures ChildrenTrace(w, dirErr, files, dir, depth)
      == ChildrenTrace(w, dirErr, files[..i], dir, depth)
         + EntryTrace(w, dirErr, files[i], dir, depth)
         + ChildrenTrace(w, dirErr, files[i + 1..], dir, depth)
  {
    assert files == files[..i + 1] + files[i + 1..];
    ChildrenTraceAppend(w, dirErr, files[..i + 1], files[i + 1..], dir, depth);
    ChildrenTracePrefix(w, dirErr, files, dir, depth, i);
  }

  /** The entry is walked past the filter, the depth cut and its callback, and
      its listing succeeds. */
  predicate Descends(w: Walker, dirErr: Path -> bool, node: Node, path: Path, depth: int) {
    !IgnoreEntry(w, path) && depth <= w.maxDepth && !dirErr(path) && ReadDir(node).Some?
  }

  /** Where child `i`'s events begin among the events of its directory: after
      the directory's `doForDir` call and the events of the children before it. */
  function ChildOffset(w: Walker, dirErr: Path -> bool, node: Node, path: Path, depth: int, i: nat): nat
    requires node.Dir? && i <= |node.children|
  {
    1 + |ChildrenTrace(w, dirErr, node.children[..i], path, depth)|
  }

  /** The middle part of a three-way concatenation sits at the first part's length. */
  lemma MiddleOfConcat<T>(t: seq<T>, a: seq<T>, b: seq<T>, c: seq<T>)
    requires t == a + b + c
    ensures |a| + |b| <= |t| && t[|a|..|a| + |b|] == b
  {
  }

  /** A directory that is descended into yields its `doForDir` call, then its listing loop. */
  lemma DescendedTrace(w: Walker, dirErr: Path -> bool, node: Node, path: Path, depth: int)
    requires Descends(w, dirErr, node, path, depth)
    ensures WalkTrace(w, dirErr, node, path, depth) == [DirVisit(path)] + ChildrenTrace(w, dirErr, node.children, path, depth)
  {
  }

  /** Within the listing loop, child `i`'s events form one block, after the
      events of the children before it. */
  lemma ChildrenBlock(w: Walker, dirErr: Path -> bool, files: seq<Node>, dir: Path, depth: int, i: nat)
    requires i < |files|
    ensures var all := ChildrenTrace(w, dirErr, files, dir, depth);
      var sub := EntryTrace(w, dirErr, files[i], dir, depth);
      var x := |ChildrenTrace(w, dirErr, files[..i], dir, depth)|;
      x + |sub| <= |all| && all[x..x + |sub|] == sub
  {
    SiblingsWalked(w, dirErr, files, dir, depth, i);
    MiddleOfConcat(ChildrenTrace(w, dirErr, files, dir, depth),
      ChildrenTrace(w, dirErr, files[..i], dir, depth),
      EntryTrace(w, dirErr, files[i], dir, depth),
      ChildrenTrace(w, dirErr, files[i + 1..], dir, depth));
  }

  /** A block of `s` is a block of `[h] + s`, one place further on. */
  lemma ShiftBlock<T>(h: T, s: seq<T>, x: nat, sub: seq<T>)
    requires x + |sub| <= |s| && s[x..x + |sub|] == sub
    ensures ([h] + s)[x + 1..x + 1 + |sub|] == sub
  {
    assert ([h] + s)[x + 1..x + 1 + |sub|] == s[x..x + |sub|];
  }

  /** In a directory that is descended into, each child's events appear as one
      contiguous block of the directory's events, after its `doForDir` call. */
  lemma ChildBlock(w: Walker, dirErr: Path -> bool, node: Node, path: Path, depth: int, i: nat)
    requires Descends(w, dirErr, node, path, depth) && i < |node.children|
    ensures var t := WalkTrace(w, dirErr, node, path, depth);
      var sub := EntryTrace(w, dirErr, node.children[i], path, depth);
      var lo := ChildOffset(w, dirErr, node, path, depth, i);
      lo + |sub| <= |t| && t[lo..lo + |sub|] == sub
  {
    var files := node.children;
    DescendedTrace(w, dirErr, node, path, depth);
    ChildrenBlock(w, dirErr, files, path, depth, i);
    ShiftBlock(DirVisit(path), ChildrenTrace(w, dirErr, files, path, depth),
      |ChildrenTrace(w, dirErr, files[..i], path, depth)|, EntryTrace(w, dirErr, files[i], path, depth));
  }

  /** An event of a child's block is an event of its directory. */
  lemma ChildEventInParent(w: Walker, dirErr: Path -> bool, node: Node, path: Path, depth: int, i: nat, e: Event)
    requires Descends(w, dirErr, node, path, depth) && i < |node.children|
    requires e in EntryTrace(w, dirErr, node.children[i], path, depth)
    ensures e in WalkTrace(w, dirErr, node, path, depth)
  {
    var t := WalkTrace(w, dirErr, node, path, depth);
    var sub := EntryTrace(w, dirErr, node.children[i], path, depth);
    ChildBlock(w, dirErr, node, path, depth, i);
    var lo := ChildOffset(w, dirErr, node, path, depth, i);
    var k :| 0 <= k < |sub| && sub[k] == e;
    assert t[lo..lo + |sub|][k] == t[lo + k];
  }

  /** What a directory that is descended into reports about each of its
      children: a subdirectory within the limit gets its `doForDir` call, one
      past the limit is reported as a truncated leaf, and a regular file that
      passes the filter and the extension check is reported as a file. */
  lemma ChildrenOfDescendedDirectory(w: Walker, dirErr: Path -> bool, node: Node, path: Path, depth: int, i: nat)
    requires Descends(w, dirErr, node, path, depth) && i < |node.children|
    ensures var c := node.children[i];
      var t := WalkTrace(w, dirErr, node, path, depth);
      var pth := Join(path, c.name);
      && (c.Dir? && !IgnoreEntry(w, pth) && depth + 1 <= w.maxDepth ==> DirVisit(pth) in t)
      && (c.Dir? && !IgnoreEntry(w, pth) && depth + 1 > w.maxDepth ==> Leaf(pth, true) in t)
      && (c.File? && FileMatches(w, c.name) ==> Leaf(pth, false) in t)
  {
    var c := node.children[i];
    var t := WalkTrace(w, dirErr, node, path, depth);
    var sub := EntryTrace(w, dirErr, c, path, depth);
    ChildBlock(w, dirErr, node, path, depth, i);
    var lo := ChildOffset(w, dirErr, node, path, depth, i);
    if sub != [] {
      assert t[lo] == sub[0];
    }
  }

  /** A filtered entry produces no event at all, so nothing beneath it is visited. */
  lemma FilteredEntryIsSilent(w: Walker, dirErr: Path -> bool, node: Node, path: Path, depth: int)
    requires IgnoreEntry(w, path)
    ensures WalkTrace(w, dirErr, node, path, depth) == []
  {
  }

  /** An entry past the depth limit yields exactly one truncated leaf, through
      the file callback, whether it is a directory or not. */
  lemma TruncatedEntryIsOneLeaf(w: Walker, dirErr: Path -> bool, node: Node, path: Path, depth: int)
    requires !IgnoreEntry(w, path) && depth > w.maxDepth
    ensures WalkTrace(w, dirErr, node, path, depth) == [Leaf(path, true)]
  {
  }

  /** An unfiltered entry within the limit starts with its `doForDir` call;
      when it is descended into (the callback and the listing succeed), every
      later event is strictly beneath it. */
  lemma VisitComesFirst(w: Walker, dirErr: Path -> bool, node: Node, path: Path, depth: int)
    requires !IgnoreEntry(w, path) && depth <= w.maxDepth
    ensures var t := WalkTrace(w, dirErr, node, path, depth);
      && t != [] && t[0] == DirVisit(path)
      && (Descends(w, dirErr, node, path, depth) ==> forall j | 0 < j < |t| :: path < t[j].path)
  {
    if Descends(w, dirErr, node, path, depth) {
      var t := WalkTrace(w, dirErr, node, path, depth);
      var c := ChildrenTrace(w, dirErr, node.children, path, depth);
      ChildrenTracePlaced(w, dirErr, node.children, path, depth);
      forall j | 0 < j < |t| ensures path < t[j].path {
        assert t[j] == c[j - 1] && c[j - 1] in c;
      }
    }
  }

  /** A directory whose `doForDir` call fails yields that call and nothing
      else: no listing, no error log, no event beneath it. */
  lemma RejectedDirectoryStops(w: Walker, dirErr: Path -> bool, node: Node, path: Path, depth: int)
    requires !IgnoreEntry(w, path) && depth <= w.maxDepth && dirErr(path)
    ensures WalkTrace(w, dirErr, node, path, depth) == [DirVisit(path)]
  {
  }

  /** An entry whose listing fails yields its `doForDir` call and exactly one
      error log. */
  lemma UnreadableEntryLogsOnce(w: Walker, dirErr: Path -> bool, node: Node, path: Path, depth: int)
    requires !IgnoreEntry(w, path) && depth <= w.maxDepth && !dirErr(path)
    requires node.File? || !node.readable
    ensures WalkTrace(w, dirErr, node, path, depth) == [DirVisit(path), LogErr(path)]
  {
  }

  /** A child regular file yields at most one event, `process(pth, false)`, and
      yields it exactly when its name passes the filter and its extension is
      non-empty and in the extension set. */
  lemma FileChildReportedIff(w: Walker, dirErr: Path -> bool, file: Node, dir: Path, depth: int)
    requires file.File?
    ensures var t := EntryTrace(w, dirErr, file, dir, depth);
      var ext := GetExt(file.name);
      && |t| <= 1
      && (t != [] ==> t == [Leaf(Join(dir, file.name), false)])
      && (t != [] <==> !IgnoreEntry(w, [file.name]) && ext != [] && Lookup(w.exts, ext))
  {
  }

  /** For a walker that `NewWalker` built, a regular file matches exactly when
      its name is neither ignored nor an excluded dot-name and its lower-cased
      extension is non-empty and one of the configured extensions. */
  lemma FileMatchesConfigured(cfg: WalkerConfig, name: string)
    ensures FileMatches(WalkerOf(cfg), name) <==>
      && name !in cfg.ignorePaths
      && (cfg.dotFiles || !HasPrefix(name, "."))
      && GetExt(name) != []
      && GetExt(name) in cfg.exts
  {
  }

  /** A configured extension with an upper-case letter equals no file's
      extension, since only the file's side is lower-cased. */
  lemma UpperCaseExtNeverMatches(ext: string, name: string, i: nat)
    requires i < |ext| && IsUpper(ext[i])
    ensures GetExt(name) != ext
  {
    GetExtIsLoweredSuffix(name);
  }
}
