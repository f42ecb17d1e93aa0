/**
 * Go's path/filepath helpers on slash-separated paths: Ext, Base, Dir, Join,
 * and the ".md"/".markdown" test every directory listing applies.
 */
module Paths {

  const Separator: char := '/'

  /** The final element of a path: everything after its last separator. */
  function LastElement(path: string): (r: string)
    ensures |r| <= |path| && r == path[|path| - |r|..]
    ensures Separator !in r
    ensures |r| < |path| ==> path[|path| - |r| - 1] == Separator
  {
    if path == [] || path[|path| - 1] == Separator then []
    else LastElement(path[..|path| - 1]) + [path[|path| - 1]]
  }

  /**
   * filepath.Ext: the suffix starting at the last '.' of the final element,
   * or "" when that element has no '.'.
   */
  function Ext(path: string): (r: string)
    ensures |r| <= |path| && r == path[|path| - |r|..]
    ensures r != [] ==> r[0] == '.' && '.' !in r[1..]
    ensures Separator !in r
  {
    if path == [] || path[|path| - 1] == Separator then []
    else if path[|path| - 1] == '.' then ['.']
    else
      var e := Ext(path[..|path| - 1]);
      if e == [] then [] else e + [path[|path| - 1]]
  }

  /** A path has an extension exactly when its final element contains a '.'. */
  lemma {:induction false} ExtEmptyIffNoDot(path: string)
    ensures Ext(path) == [] <==> '.' !in LastElement(path)
  {
    if path != [] && path[|path| - 1] != Separator && path[|path| - 1] != '.' {
      var p := path[..|path| - 1];
      ExtEmptyIffNoDot(p);
      assert LastElement(path) == LastElement(p) + [path[|path| - 1]];
    }
  }

  /** The extension test of every listing: exactly ".md" or ".markdown", case-sensitive. */
  predicate IsPostFile(name: string)
  {
    Ext(name) == ".md" || Ext(name) == ".markdown"
  }

  /** Drops trailing separators. */
  function TrimTrailingSeparators(path: string): (r: string)
    ensures r == [] || r[|r| - 1] != Separator
  {
    if path != [] && path[|path| - 1] == Separator then TrimTrailingSeparators(path[..|path| - 1]) else path
  }

  /** filepath.Base: "." for "", "/" for a path of separators only, else the last element. */
  function Base(path: string): string
  {
    if path == [] then "."
    else
      var t := TrimTrailingSeparators(path);
      if t == [] then [Separator] else LastElement(t)
  }

  /**
   * filepath.Dir for a clean path: everything before the last separator,
   * "/" when that separator is the first character, "." when there is none.
   */
  function Dir(path: string): string
  {
    var e := LastElement(path);
    if |e| == |path| then "."
    else if |e| + 1 == |path| then [Separator]
    else path[..|path| - |e| - 1]
  }

  /** filepath.Join of two elements, for clean elements: empty elements are skipped. */
  function JoinPath(dir: string, name: string): string
  {
    if dir == [] then name
    else if name == [] then dir
    else dir + [Separator] + name
  }

  /** Joining a directory with a plain file name can be taken apart again with Dir and Base. */
  lemma JoinPathParts(dir: string, name: string)
    requires dir != [] && name != [] && Separator !in name
    ensures Dir(JoinPath(dir, name)) == dir
    ensures Base(JoinPath(dir, name)) == name
  {
    var p := JoinPath(dir, name);
    LastElementOfJoin(dir, name);
    assert TrimTrailingSeparators(p) == p;
  }

  lemma {:induction false} LastElementOfJoin(dir: string, name: string)
    requires Separator !in name
    ensures LastElement(dir + [Separator] + name) == name
  {
    var p := dir + [Separator] + name;
    if name == [] {
      assert p[|p| - 1] == Separator;
    } else {
      var q := name[..|name| - 1];
      assert p[..|p| - 1] == dir + [Separator] + q;
      LastElementOfJoin(dir, q);
      assert name == q + [name[|name| - 1]];
    }
  }

  /** Any stem followed by ".md" names a post file. */
  lemma MdSuffixIsPostFile(stem: string)
    ensures Ext(stem + ".md") == ".md"
    ensures IsPostFile(stem + ".md")
  {
    var p0, p1, p2 := stem + ".", stem + ".m", stem + ".md";
    assert p2[..|p2| - 1] == p1;
    assert p1[..|p1| - 1] == p0;
    assert Ext(p0) == ".";
    assert Ext(p1) == ".m";
  }

  /** The test is exact and case-sensitive: an upper-case extension is skipped. */
  lemma UpperCaseIsNotPostFile()
    ensures !IsPostFile("POST.MD")
  {
    var u, u1, u2 := "POST.MD", "POST.M", "POST.";
    assert u[..6] == u1 && u1[..5] == u2;
    assert Ext(u2) == ".";
    assert Ext(u1) == ".M";
  }

  /** Only the last '.' counts: a backup copy of a post is skipped. */
  lemma BackupIsNotPostFile()
    ensures !IsPostFile("post.md.bak")
  {
    var b, b1, b2, b3 := "post.md.bak", "post.md.ba", "post.md.b", "post.md.";
    assert b[..10] == b1 && b1[..9] == b2 && b2[..8] == b3;
    assert Ext(b3) == ".";
    assert Ext(b2) == ".b";
    assert Ext(b1) == ".ba";
  }
}
