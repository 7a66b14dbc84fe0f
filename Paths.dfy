/** Paths as lists of components, and the destination-path mapping of
    backup-disc.py: `os.path.join(dest_dir, os.path.relpath(src, src_dir))`. */
module Paths {
  import opened PathStrings

  /** One component of a normalised path: not empty, free of separators, and
      neither "." nor "..", which normalisation removes. */
  predicate IsName(s: string) {
    s != "" && s != "." && s != ".." && forall j | 0 <= j < |s| :: !IsSep(s[j])
  }

  type Name = s: string | IsName(s) witness "a"

  /** A normalised absolute path; the empty list is the root of the tree. */
  type Path = seq<Name>

  /** `os.path.dirname`. */
  function Parent(p: Path): (r: Path)
    requires p != []
    ensures |r| + 1 == |p| && IsUnder(p, r)
  {
    p[..|p| - 1]
  }

  /** `os.path.basename`. */
  function Basename(p: Path): (r: Name)
    requires p != []
    ensures Parent(p) + [r] == p
  {
    p[|p| - 1]
  }

  /** `p` lies strictly inside the directory `root`. */
  predicate IsUnder(p: Path, root: Path) {
    |root| < |p| && p[..|root|] == root
  }

  /** Neither root contains the other. */
  predicate Disjoint(a: Path, b: Path) {
    !(a <= b) && !(b <= a)
  }

  /** `os.path.relpath(p, start)` for a path inside `start`. */
  function RelPath(p: Path, start: Path): (r: Path)
    requires IsUnder(p, start)
    ensures start + r == p && r != []
  {
    p[|start|..]
  }

  /** `os.path.join(dir, rel)`. */
  function Join(dir: Path, rel: Path): (r: Path)
    ensures |r| == |dir| + |rel|
    ensures rel != [] ==> IsUnder(r, dir) && RelPath(r, dir) == rel
  {
    dir + rel
  }

  /** Where a file inside the source root is copied to. */
  function MirrorPath(srcDir: Path, destDir: Path, f: Path): (r: Path)
    requires IsUnder(f, srcDir)
    ensures IsUnder(r, destDir)
    ensures |r| - |destDir| == |f| - |srcDir|
    ensures Basename(r) == Basename(f)
  {
    Join(destDir, RelPath(f, srcDir))
  }

  /** Path integrity: the file at `srcDir/r` goes to `destDir/r`, whatever
      the depth of `r`. */
  lemma PathIntegrity(srcDir: Path, destDir: Path, r: Path)
    requires r != []
    ensures IsUnder(srcDir + r, srcDir)
    ensures MirrorPath(srcDir, destDir, srcDir + r) == destDir + r
  {
    assert (srcDir + r)[..|srcDir|] == srcDir;
    assert (srcDir + r)[|srcDir|..] == r;
  }

  /** The mapping is undone by taking the path relative to the destination root. */
  lemma MirrorRelPath(srcDir: Path, destDir: Path, f: Path)
    requires IsUnder(f, srcDir)
    ensures RelPath(MirrorPath(srcDir, destDir, f), destDir) == RelPath(f, srcDir)
  {
  }

  /** Distinct source files go to distinct destinations, and one destination
      lies inside another exactly when the sources do. */
  lemma MirrorPrefix(srcDir: Path, destDir: Path, f: Path, g: Path)
    requires IsUnder(f, srcDir) && IsUnder(g, srcDir)
    ensures MirrorPath(srcDir, destDir, f) <= MirrorPath(srcDir, destDir, g) <==> f <= g
    ensures MirrorPath(srcDir, destDir, f) == MirrorPath(srcDir, destDir, g) <==> f == g
  {
    var rf, rg := RelPath(f, srcDir), RelPath(g, srcDir);
    var mf, mg := MirrorPath(srcDir, destDir, f), MirrorPath(srcDir, destDir, g);
    assert mf == destDir + rf && mg == destDir + rg;
    assert f == srcDir + rf && g == srcDir + rg;
    PrefixAfterCommon(destDir, rf, rg);
    PrefixAfterCommon(srcDir, rf, rg);
  }

  lemma PrefixAfterCommon(c: Path, a: Path, b: Path)
    ensures c + a <= c + b <==> a <= b
    ensures c + a == c + b <==> a == b
  {
    if c + a <= c + b {
      assert a == (c + a)[|c|..];
      assert (c + b)[|c|..] == b;
      assert a == b[..|a|];
    }
    if a <= b {
      assert c + a == (c + b)[..|c| + |a|];
    }
    if c + a == c + b {
      assert a == (c + a)[|c|..];
    }
  }

  /** No path lies inside two disjoint roots. */
  lemma DisjointRoots(a: Path, b: Path, p: Path)
    requires Disjoint(a, b) && IsUnder(p, a)
    ensures !IsUnder(p, b)
  {
  }

  /** The full path the filesystem watcher reports: the components joined by
      ntpath's separator. */
  function JoinString(p: Path): string
  {
    if |p| == 0 then ""
    else if |p| == 1 then p[0]
    else JoinString(p[..|p| - 1]) + [SEP] + p[|p| - 1]
  }

  /** The last component of the string form is the basename. */
  lemma {:induction false} LastComponentOfJoinString(p: Path)
    requires p != []
    ensures LastComponent(JoinString(p)) == Basename(p)
  {
    var s := JoinString(p);
    var name := Basename(p);
    if |p| == 1 {
      LastSepUnique(s, -1);
    } else {
      var head := JoinString(p[..|p| - 1]);
      assert s == head + [SEP] + name;
      assert forall j | |head| < j < |s| :: s[j] == name[j - |head| - 1];
      LastSepUnique(s, |head|);
      assert s[|head| + 1..] == name;
    }
  }
}
