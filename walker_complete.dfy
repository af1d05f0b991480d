/** Completeness and uniqueness of a walk: every entry the walker reaches gets
    its callback, and, when no directory lists two children under one name,
    it gets it exactly once. */
module WalkerCompleteness {
  import opened FilePath
  import opened TreeWalker
  import opened WalkerProperties

  /** No directory of the tree lists two children under the same name, as in a
      real filesystem. */
  ghost predicate DistinctNames(node: Node) {
    node.Dir? ==>
      (forall i, j | 0 <= i < j < |node.children| :: node.children[i].name != node.children[j].name) &&
      (forall i | 0 <= i < |node.children| :: DistinctNames(node.children[i]))
  }

  /** No event occurs twice in the trace. */
  ghost predicate NoDuplicates(t: seq<Event>) {
    forall i, j | 0 <= i < j < |t| :: t[i] != t[j]
  }

  /** The names of a directory's children. */
  ghost function ChildNames(files: seq<Node>): set<string> {
    set k | 0 <= k < |files| :: files[k].name
  }

  /** `target`, at `tpath`, is reached from `node`, at `path` and `depth`, by
      following the child indices `idx`, and the walk descends into every
      entry strictly above it: each passes the filter and the depth limit,
      its `doForDir` call succeeds and its listing succeeds. */
  ghost predicate Route(w: Walker, dirErr: Path -> bool, node: Node, path: Path, depth: int,
                        idx: seq<nat>, target: Node, tpath: Path)
    decreases |idx|
  {
    if idx == [] then target == node && tpath == path
    else
      Descends(w, dirErr, node, path, depth) && idx[0] < |node.children| &&
      var c := node.children[idx[0]];
      Route(w, dirErr, c, Join(path, c.name), depth + 1, idx[1..], target, tpath)
  }

  /** Completeness along a route: the reached entry gets its `doForDir` call
      when it is a directory (or the walked node itself) within the limit, is
      a truncated leaf when it is such an entry past the limit, and is
      reported as a file when it is a regular file that matches. */
  lemma {:induction false} RouteReported(w: Walker, dirErr: Path -> bool, node: Node, path: Path, depth: int,
                                         idx: seq<nat>, target: Node, tpath: Path)
    requires Route(w, dirErr, node, path, depth, idx, target, tpath)
    ensures var t := WalkTrace(w, dirErr, node, path, depth);
      && ((idx == [] || target.Dir?) && !IgnoreEntry(w, tpath) && depth + |idx| <= w.maxDepth ==> DirVisit(tpath) in t)
      && ((idx == [] || target.Dir?) && !IgnoreEntry(w, tpath) && depth + |idx| > w.maxDepth ==> Leaf(tpath, true) in t)
      && (idx != [] && target.File? && FileMatches(w, target.name) ==> Leaf(tpath, false) in t)
    decreases |idx|
  {
    if idx != [] {
      var i := idx[0];
      var c := node.children[i];
      var pth := Join(path, c.name);
      if c.Dir? {
        EntryTraceOfDir(w, dirErr, c, path, depth);
        RouteReported(w, dirErr, c, pth, depth + 1, idx[1..], target, tpath);
        if (target.Dir? || idx[1..] == []) && !IgnoreEntry(w, tpath) {
          if depth + |idx| <= w.maxDepth {
            ChildEventInParent(w, dirErr, node, path, depth, i, DirVisit(tpath));
          } else {
            ChildEventInParent(w, dirErr, node, path, depth, i, Leaf(tpath, true));
          }
        }
        if target.File? && FileMatches(w, target.name) {
          ChildEventInParent(w, dirErr, node, path, depth, i, Leaf(tpath, false));
        }
      } else {
        assert idx[1..] == [];
        if FileMatches(w, c.name) {
          EntryTraceOfFile(w, dirErr, c, path, depth);
          ChildEventInParent(w, dirErr, node, path, depth, i, Leaf(pth, false));
        }
      }
    }
  }

  /** Every event of a listing loop is about an entry below the directory
      whose first component below it is the name of one of the children. */
  lemma {:induction false} ChildrenTraceNames(w: Walker, dirErr: Path -> bool, files: seq<Node>, dir: Path, depth: int)
    ensures forall e | e in ChildrenTrace(w, dirErr, files, dir, depth) ::
      |dir| < |e.path| && e.path[|dir|] in ChildNames(files)
    decreases |files|
  {
    if files != [] {
      var init, f := files[..|files| - 1], files[|files| - 1];
      ChildrenTraceNames(w, dirErr, init, dir, depth);
      assert ChildNames(init) <= ChildNames(files) by {
        forall n | n in ChildNames(init) ensures n in ChildNames(files) {
          var k :| 0 <= k < |init| && init[k].name == n;
          assert files[k].name == n;
        }
      }
      assert f.name in ChildNames(files);
      var pth := Join(dir, f.name);
      if f.Dir? {
        WalkTracePlaced(w, dirErr, f, pth, depth + 1);
        assert EntryTrace(w, dirErr, f, dir, depth) == WalkTrace(w, dirErr, f, pth, depth + 1);
        forall e | e in EntryTrace(w, dirErr, f, dir, depth)
          ensures |dir| < |e.path| && e.path[|dir|] == f.name
        {
          assert pth <= e.path;
          assert e.path[|dir|] == pth[|dir|];
        }
      }
    }
  }

  /** Concatenating two duplicate-free traces with no event in common. */
  lemma NoDuplicatesAppend(a: seq<Event>, b: seq<Event>)
    requires NoDuplicates(a) && NoDuplicates(b)
    requires forall e | e in a :: e !in b
    ensures NoDuplicates(a + b)
  {
    var t := a + b;
    forall i, j | 0 <= i < j < |t| ensures t[i] != t[j] {
      if i < |a| && |a| <= j {
        assert t[i] == a[i] && t[j] == b[j - |a|];
        assert a[i] in a;
      } else if |a| <= i {
        assert t[i] == b[i - |a|] && t[j] == b[j - |a|];
      } else {
        assert t[i] == a[i] && t[j] == a[j];
      }
    }
  }

  lemma {:induction false} WalkTraceNoDuplicates(w: Walker, dirErr: Path -> bool, node: Node, path: Path, depth: int)
    requires DistinctNames(node)
    ensures NoDuplicates(WalkTrace(w, dirErr, node, path, depth))
    decreases node, 1
  {
    if Descends(w, dirErr, node, path, depth) {
      var c := ChildrenTrace(w, dirErr, node.children, path, depth);
      ChildrenTraceNoDuplicates(w, dirErr, node.children, path, depth);
      ChildrenTracePlaced(w, dirErr, node.children, path, depth);
      assert forall e | e in [DirVisit(path)] :: e !in c;
      NoDuplicatesAppend([DirVisit(path)], c);
    }
  }

  lemma {:induction false} ChildrenTraceNoDuplicates(w: Walker, dirErr: Path -> bool, files: seq<Node>, dir: Path, depth: int)
    requires forall i, j | 0 <= i < j < |files| :: files[i].name != files[j].name
    requires forall i | 0 <= i < |files| :: DistinctNames(files[i])
    ensures NoDuplicates(ChildrenTrace(w, dirErr, files, dir, depth))
    decreases files, 0
  {
    if files != [] {
      var init, f := files[..|files| - 1], files[|files| - 1];
      var a := ChildrenTrace(w, dirErr, init, dir, depth);
      var b := EntryTrace(w, dirErr, f, dir, depth);
      ChildrenTraceNoDuplicates(w, dirErr, init, dir, depth);
      var pth := Join(dir, f.name);
      if f.Dir? {
        WalkTraceNoDuplicates(w, dirErr, f, pth, depth + 1);
        WalkTracePlaced(w, dirErr, f, pth, depth + 1);
      }
      ChildrenTraceNames(w, dirErr, init, dir, depth);
      assert f.name !in ChildNames(init);
      assert forall e | e in a :: e !in b;
      NoDuplicatesAppend(a, b);
    }
  }

  /** An event of a duplicate-free trace occurs exactly once. */
  lemma {:induction false} OccursOnce(t: seq<Event>, e: Event)
    requires NoDuplicates(t) && e in t
    ensures multiset(t)[e] == 1
  {
    assert t == [t[0]] + t[1..];
    assert NoDuplicates(t[1..]) by {
      forall i, j | 0 <= i < j < |t[1..]| ensures t[1..][i] != t[1..][j] {
        assert t[1..][i] == t[i + 1] && t[1..][j] == t[j + 1];
      }
    }
    if t[0] == e {
      assert e !in t[1..] by {
        forall k | 0 <= k < |t[1..]| ensures t[1..][k] != e {
          assert t[1..][k] == t[k + 1];
        }
      }
    } else {
      OccursOnce(t[1..], e);
    }
  }

  /** The whole walk from `root` at depth 0 over a tree with distinct child
      names: no event occurs twice; every directory reached through entries
      the walk descends into, that passes the filter and is within the limit,
      gets exactly one `doForDir` call; one past the limit gets exactly one
      truncated leaf; and every matching regular file reached that way gets
      exactly one `process(pth, false)`. */
  lemma WalkReportsEachOnce(w: Walker, dirErr: Path -> bool, tree: Node, root: Path,
                            idx: seq<nat>, target: Node, tpath: Path)
    requires DistinctNames(tree)
    requires Route(w, dirErr, tree, root, 0, idx, target, tpath)
    ensures var t := WalkTrace(w, dirErr, tree, root, 0);
      && (forall e | e in t :: multiset(t)[e] == 1)
      && ((idx == [] || target.Dir?) && !IgnoreEntry(w, tpath) && |idx| <= w.maxDepth ==> multiset(t)[DirVisit(tpath)] == 1)
      && ((idx == [] || target.Dir?) && !IgnoreEntry(w, tpath) && |idx| > w.maxDepth ==> multiset(t)[Leaf(tpath, true)] == 1)
      && (idx != [] && target.File? && FileMatches(w, target.name) ==> multiset(t)[Leaf(tpath, false)] == 1)
  {
    var t := WalkTrace(w, dirErr, tree, root, 0);
    WalkTraceNoDuplicates(w, dirErr, tree, root, 0);
    RouteReported(w, dirErr, tree, root, 0, idx, target, tpath);
    forall e | e in t ensures multiset(t)[e] == 1 {
      OccursOnce(t, e);
    }
  }
}
