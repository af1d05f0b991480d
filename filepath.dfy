/** The parts of Go's `path/filepath` and `strings` packages that the walker
    relies on, over paths written as sequences of name components. */
module FilePath {

  /** A path as its sequence of name components (`./testdata/dir1` is
      `[".", "testdata", "dir1"]`). */
  type Path = seq<string>

  /** The path separator `filepath.Ext` stops at (Unix). */
  const Separator: char := '/'

  /** `filepath.Join(dir, name)` for a single name component. */
  function Join(dir: Path, name: string): (p: Path)
    ensures |p| == |dir| + 1 && p[..|dir|] == dir && p[|dir|] == name
    ensures Base(p) == name && dir < p
  {
    dir + [name]
  }

  /** `filepath.Base`: the last component; the empty path has base `"."`. */
  function Base(p: Path): string {
    if p == [] then "." else p[|p| - 1]
  }

  /** `strings.HasPrefix(s, prefix)`. */
  predicate HasPrefix(s: string, prefix: string) {
    prefix <= s
  }

  /** A `'.'` at index `k` begins the extension of `s`: nothing after it is a
      dot or a separator. */
  ghost predicate ExtStart(s: string, k: int) {
    0 <= k < |s| && s[k] == '.' &&
    forall j | k < j < |s| :: s[j] != '.' && s[j] != Separator
  }

  /** `filepath.Ext`: the suffix from the last dot of the final element, dot
      included, or empty when the final element has no dot. */
  function Ext(s: string): (e: string)
    ensures |e| <= |s|
  {
    if s == [] then ""
    else
      var c := s[|s| - 1];
      if c == Separator then ""
      else if c == '.' then "."
      else
        var e := Ext(s[..|s| - 1]);
        if e == "" then "" else e + [c]
  }

  /** A non-empty extension starts at a dot with no dot and no separator after
      it, and runs to the end of the string. */
  lemma {:induction false} ExtIsFinalDotSuffix(s: string)
    ensures Ext(s) != [] ==> ExtStart(s, |s| - |Ext(s)|) && Ext(s) == s[|s| - |Ext(s)|..]
    decreases |s|
  {
    if s != [] && s[|s| - 1] != Separator && s[|s| - 1] != '.' {
      var init := s[..|s| - 1];
      ExtIsFinalDotSuffix(init);
      var e := Ext(init);
      if e != [] {
        var k := |init| - |e|;
        assert ExtStart(init, k);
        assert s[k..] == init[k..] + [s[|s| - 1]];
      }
    }
  }

  /** Conversely to `ExtIsFinalDotSuffix`: a dot with no dot and no separator
      after it begins the extension. */
  lemma {:induction false} ExtFromDot(s: string, k: int)
    requires ExtStart(s, k)
    ensures Ext(s) == s[k..]
    decreases |s|
  {
    if k < |s| - 1 {
      var init := s[..|s| - 1];
      assert ExtStart(init, k);
      ExtFromDot(init, k);
      assert init[k..] + [s[|s| - 1]] == s[k..];
    }
  }

  /** An empty extension means no dot of the string begins one. */
  lemma EmptyExtNoDot(s: string)
    ensures Ext(s) == [] ==> forall k | 0 <= k < |s| :: !ExtStart(s, k)
  {
    forall k | 0 <= k < |s| && ExtStart(s, k) ensures Ext(s) != [] {
      ExtFromDot(s, k);
    }
  }

  predicate IsUpper(c: char) {
    'A' <= c <= 'Z'
  }

  /** ASCII case folding of one character. */
  function LowerChar(c: char): (r: char)
    ensures !IsUpper(r)
    ensures !IsUpper(c) ==> r == c
    ensures IsUpper(c) ==> r as int - 'a' as int == c as int - 'A' as int
  {
    if IsUpper(c) then (c as int - 'A' as int + 'a' as int) as char else c
  }

  /** `strings.ToLower`, restricted to ASCII letters. */
  function ToLower(s: string): (r: string)
    ensures |r| == |s|
  {
    seq(|s|, i requires 0 <= i < |s| => LowerChar(s[i]))
  }
}
