/** The two traversals of walker_test.go over its `testdata` tree, and the
    extension-matching examples, as concrete facts about the model. */
module WalkerScenarios {
  import opened Util
  import opened FilePath
  import opened TreeWalker
  import opened WalkerProperties

  /** `./testdata` as components. */
  const Root: Path := [".", "testdata"]

  /** The three subdirectories of the root. */
  const Dir1: Path := Join(Root, "dir1")
  const Dir2: Path := Join(Root, "dir2")
  const Dir3: Path := Join(Root, "dir3")

  /** The `testdata` tree: three directories, two of them holding `.txt`
      files and one holding a further directory. */
  const Testdata: Node :=
    Dir("testdata", [
      Dir("dir1", [File("file1.txt"), File("file1_2.txt")], true),
      Dir("dir2", [File("file2_1.txt")], true),
      Dir("dir3", [Dir("dir3_1", [], true)], true)
    ], true)

  /** A directory callback that always succeeds. */
  function NeverFails(p: Path): bool {
    false
  }

  /** With no ignore list, an entry whose base name does not begin with a dot
      is never skipped. */
  lemma PlainNameNotIgnored(cfg: WalkerConfig, p: Path)
    requires cfg.ignorePaths == []
    requires p != [] && p[|p| - 1] != [] && p[|p| - 1][0] != '.'
    ensures !IgnoreEntry(WalkerOf(cfg), p)
  {
    assert !HasPrefix(Base(p), ".") by {
      assert Base(p)[0] != "."[0];
    }
  }

  /** A name ending in `.txt` has extension `txt`. */
  lemma TxtExt(name: string)
    requires |name| >= 4
    requires name[|name| - 4] == '.' && name[|name| - 3] == 't' && name[|name| - 2] == 'x' && name[|name| - 1] == 't'
    ensures GetExt(name) == "txt"
  {
    var k := |name| - 4;
    assert ExtStart(name, k);
    GetExtFromDot(name, k);
    assert name[k + 1..] == "txt";
  }

  /** A name ending in `.TXT` has extension `txt` too. */
  lemma UpperTxtExt(name: string)
    requires |name| >= 4
    requires name[|name| - 4] == '.' && name[|name| - 3] == 'T' && name[|name| - 2] == 'X' && name[|name| - 1] == 'T'
    ensures GetExt(name) == "txt"
  {
    var k := |name| - 4;
    assert ExtStart(name, k);
    GetExtFromDot(name, k);
    var l := ToLower(name[k + 1..]);
    assert l[0] == 't' && l[1] == 'x' && l[2] == 't';
  }

  /** A name without a dot has no extension. */
  lemma NoDotNoExt(name: string)
    requires forall i | 0 <= i < |name| :: name[i] != '.'
    ensures GetExt(name) == ""
  {
    ExtIsFinalDotSuffix(name);
  }

  lemma ExtensionsOfTestFiles()
    ensures GetExt("file1.txt") == "txt"
    ensures GetExt("file1_2.txt") == "txt"
    ensures GetExt("file2_1.txt") == "txt"
    ensures GetExt("REPORT.TXT") == "txt"
    ensures GetExt("Makefile") == ""
  {
    TxtExt("file1.txt");
    TxtExt("file1_2.txt");
    TxtExt("file2_1.txt");
    UpperTxtExt("REPORT.TXT");
    NoDotNoExt("Makefile");
  }

  /** The listing loop over one child is that child's events. */
  lemma ChildrenTraceOfOne(w: Walker, dirErr: Path -> bool, a: Node, dir: Path, depth: int)
    ensures ChildrenTrace(w, dirErr, [a], dir, depth) == EntryTrace(w, dirErr, a, dir, depth)
  {
    assert [a][..0] == [];
    assert ChildrenTrace(w, dirErr, [], dir, depth) == [];
  }

  /** The listing loop over two children is the two children's events in order. */
  lemma ChildrenTraceOfTwo(w: Walker, dirErr: Path -> bool, a: Node, b: Node, dir: Path, depth: int)
    ensures ChildrenTrace(w, dirErr, [a, b], dir, depth)
      == EntryTrace(w, dirErr, a, dir, depth) + EntryTrace(w, dirErr, b, dir, depth)
  {
    assert [a, b][..1] == [a];
    ChildrenTraceOfOne(w, dirErr, a, dir, depth);
  }

  /** The listing loop over three children is the three children's events in order. */
  lemma ChildrenTraceOfThree(w: Walker, dirErr: Path -> bool, a: Node, b: Node, c: Node, dir: Path, depth: int)
    ensures ChildrenTrace(w, dirErr, [a, b, c], dir, depth)
      == EntryTrace(w, dirErr, a, dir, depth) + EntryTrace(w, dirErr, b, dir, depth) + EntryTrace(w, dirErr, c, dir, depth)
  {
    assert [a, b, c][..2] == [a, b];
    ChildrenTraceOfTwo(w, dirErr, a, b, dir, depth);
  }

  /** A matching file yields one report. */
  lemma MatchingFileEntry(w: Walker, dirErr: Path -> bool, name: string, dir: Path, depth: int)
    requires FileMatches(w, name)
    ensures EntryTrace(w, dirErr, File(name), dir, depth) == [Leaf(Join(dir, name), false)]
  {
  }

  /** `TestDefault`: with the zero configuration (depth limit 0, no
      extensions) the root gets the only `doForDir` call and its three
      subdirectories are reported as truncated leaves. */
  lemma TestDefault()
    ensures WalkTrace(WalkerOf(WalkerConfig([], [], false, 0)), NeverFails, Testdata, Root, 0)
      == [DirVisit(Root), Leaf(Dir1, true), Leaf(Dir2, true), Leaf(Dir3, true)]
  {
    var cfg := WalkerConfig([], [], false, 0);
    var w := WalkerOf(cfg);
    PlainNameNotIgnored(cfg, Root);
    PlainNameNotIgnored(cfg, Dir1);
    PlainNameNotIgnored(cfg, Dir2);
    PlainNameNotIgnored(cfg, Dir3);
    DescendedTrace(w, NeverFails, Testdata, Root, 0);
    ChildrenTraceOfThree(w, NeverFails, Testdata.children[0], Testdata.children[1], Testdata.children[2], Root, 0);
  }

  /** The configuration of `TestDepth`. */
  const DepthConfig: WalkerConfig := WalkerConfig(["txt"], [], false, 1)

  /** Under `DepthConfig` the three test files are reported. */
  lemma TestFilesMatch()
    ensures FileMatches(WalkerOf(DepthConfig), "file1.txt")
    ensures FileMatches(WalkerOf(DepthConfig), "file1_2.txt")
    ensures FileMatches(WalkerOf(DepthConfig), "file2_1.txt")
  {
    ExtensionsOfTestFiles();
    PlainNameNotIgnored(DepthConfig, ["file1.txt"]);
    PlainNameNotIgnored(DepthConfig, ["file1_2.txt"]);
    PlainNameNotIgnored(DepthConfig, ["file2_1.txt"]);
    MembershipOfKeys(DepthConfig.exts);
  }

  /** `dir1` at depth 1: visited, both files reported. */
  lemma Dir1Trace()
    ensures WalkTrace(WalkerOf(DepthConfig), NeverFails, Testdata.children[0], Dir1, 1)
      == [DirVisit(Dir1), Leaf(Join(Dir1, "file1.txt"), false), Leaf(Join(Dir1, "file1_2.txt"), false)]
  {
    var w, p := WalkerOf(DepthConfig), Dir1;
    PlainNameNotIgnored(DepthConfig, p);
    DescendedTrace(w, NeverFails, Testdata.children[0], p, 1);
    ChildrenTraceOfTwo(w, NeverFails, File("file1.txt"), File("file1_2.txt"), p, 1);
    TestFilesMatch();
    MatchingFileEntry(w, NeverFails, "file1.txt", p, 1);
    MatchingFileEntry(w, NeverFails, "file1_2.txt", p, 1);
  }

  /** `dir2` at depth 1: visited, its file reported. */
  lemma Dir2Trace()
    ensures WalkTrace(WalkerOf(DepthConfig), NeverFails, Testdata.children[1], Dir2, 1)
      == [DirVisit(Dir2), Leaf(Join(Dir2, "file2_1.txt"), false)]
  {
    var w, p := WalkerOf(DepthConfig), Dir2;
    PlainNameNotIgnored(DepthConfig, p);
    DescendedTrace(w, NeverFails, Testdata.children[1], p, 1);
    ChildrenTraceOfOne(w, NeverFails, File("file2_1.txt"), p, 1);
    TestFilesMatch();
    MatchingFileEntry(w, NeverFails, "file2_1.txt", p, 1);
  }

  /** `dir3` at depth 1: visited, and `dir3_1`, one level too deep, is a truncated leaf. */
  lemma Dir3Trace()
    ensures WalkTrace(WalkerOf(DepthConfig), NeverFails, Testdata.children[2], Dir3, 1)
      == [DirVisit(Dir3), Leaf(Join(Dir3, "dir3_1"), true)]
  {
    var w, p := WalkerOf(DepthConfig), Dir3;
    PlainNameNotIgnored(DepthConfig, p);
    DescendedTrace(w, NeverFails, Testdata.children[2], p, 1);
    ChildrenTraceOfOne(w, NeverFails, Dir("dir3_1", [], true), p, 1);
    PlainNameNotIgnored(DepthConfig, Join(p, "dir3_1"));
  }

  /** Concatenating the root's visit with the three directories' events. */
  lemma DepthConcat(a: Event, b: Event, c: Event, d: Event, e: Event, f: Event, g: Event, h: Event)
    ensures [a] + ([b, c, d] + [e, f] + [g, h]) == [a, b, c, d, e, f, g, h]
  {
  }

  /** `TestDepth`: with depth limit 1 and extension `txt` every directory of
      the first level is visited, the three `.txt` files are reported, and
      `dir3_1`, at depth 2, is reported as a truncated leaf. */
  lemma TestDepth()
    ensures WalkTrace(WalkerOf(DepthConfig), NeverFails, Testdata, Root, 0) == [
      DirVisit(Root),
      DirVisit(Dir1),
      Leaf(Join(Dir1, "file1.txt"), false),
      Leaf(Join(Dir1, "file1_2.txt"), false),
      DirVisit(Dir2),
      Leaf(Join(Dir2, "file2_1.txt"), false),
      DirVisit(Dir3),
      Leaf(Join(Dir3, "dir3_1"), true)]
  {
    var w := WalkerOf(DepthConfig);
    PlainNameNotIgnored(DepthConfig, Root);
    DescendedTrace(w, NeverFails, Testdata, Root, 0);
    ChildrenTraceOfThree(w, NeverFails, Testdata.children[0], Testdata.children[1], Testdata.children[2], Root, 0);
    Dir1Trace();
    Dir2Trace();
    Dir3Trace();
    DepthConcat(DirVisit(Root), DirVisit(Dir1), Leaf(Join(Dir1, "file1.txt"), false), Leaf(Join(Dir1, "file1_2.txt"), false),
      DirVisit(Dir2), Leaf(Join(Dir2, "file2_1.txt"), false), DirVisit(Dir3), Leaf(Join(Dir3, "dir3_1"), true));
  }

  /** Matching lower-cases the file's extension only: `REPORT.TXT` matches a
      configured `txt`, a configured `TXT` matches nothing, and `Makefile` has
      no extension. */
  lemma ExtensionCase()
    ensures FileMatches(WalkerOf(WalkerConfig(["txt"], [], false, 0)), "REPORT.TXT")
    ensures forall name :: !FileMatches(WalkerOf(WalkerConfig(["TXT"], [], false, 0)), name)
    ensures !FileMatches(WalkerOf(WalkerConfig(["txt"], [], false, 0)), "Makefile")
  {
    var cfg := WalkerConfig(["txt"], [], false, 0);
    UpperTxtExt("REPORT.TXT");
    PlainNameNotIgnored(cfg, ["REPORT.TXT"]);
    MembershipOfKeys(cfg.exts);
    NoDotNoExt("Makefile");
    forall name ensures !FileMatches(WalkerOf(WalkerConfig(["TXT"], [], false, 0)), name) {
      UpperCaseExtNeverMatches("TXT", name, 0);
    }
  }

  /** `filepath.Base(".")` is `"."`, so walking the current directory `.`
      while dot-entries are excluded reports nothing at all. */
  lemma DotRootWalksNothing(cfg: WalkerConfig, dirErr: Path -> bool, tree: Node)
    requires !cfg.dotFiles
    ensures WalkTrace(WalkerOf(cfg), dirErr, tree, ["."], 0) == []
  {
    assert HasPrefix(Base(["."]), ".");
  }

  /** Without distinct child names a path can be visited twice: a directory
      listing two subdirectories named `a` gets two `doForDir` calls on `r/a`. */
  lemma DuplicateNamesVisitTwice()
    ensures var w := WalkerOf(WalkerConfig([], [], false, 1));
      var tree := Dir("r", [Dir("a", [], true), Dir("a", [], true)], true);
      multiset(WalkTrace(w, NeverFails, tree, ["r"], 0))[DirVisit(Join(["r"], "a"))] == 2
  {
    var cfg := WalkerConfig([], [], false, 1);
    var w := WalkerOf(cfg);
    var a := Dir("a", [], true);
    var tree := Dir("r", [a, a], true);
    var p := Join(["r"], "a");
    PlainNameNotIgnored(cfg, ["r"]);
    PlainNameNotIgnored(cfg, p);
    DescendedTrace(w, NeverFails, tree, ["r"], 0);
    ChildrenTraceOfTwo(w, NeverFails, a, a, ["r"], 0);
    DescendedTrace(w, NeverFails, a, p, 1);
    ChildrenTraceOfOne(w, NeverFails, a, p, 1);
    assert ChildrenTrace(w, NeverFails, [], p, 1) == [];
    assert WalkTrace(w, NeverFails, tree, ["r"], 0) == [DirVisit(["r"]), DirVisit(p), DirVisit(p)];
  }
}
