/** The part of the file system the mirror touches: a tree of directories and
    files, with the two library calls backup-disc.py makes on it,
    `os.makedirs(d, exist_ok=True)` and `shutil.copy2(src, dst)`. */
module Fs {
  import opened Paths

  type Bytes = seq<bv8>

  /** A snapshot of the file system: the contents of every file and the set of
      directories. */
  datatype FsState = FsState(files: map<Path, Bytes>, dirs: set<Path>)

  /** The exceptions the two library calls raise. */
  datatype FsError =
    | NotADirectory(path: Path)             // makedirs met a file where a directory is needed
    | SameFile(path: Path)                  // shutil.SameFileError
    | SourceNotAFile(path: Path)            // opening the source: it is missing or a directory
    | DestinationIsADirectory(path: Path)   // opening the destination for writing
    | DestinationParentMissing(path: Path)  // the destination's directory does not exist

  /** How a call ended: normally, or by raising. */
  datatype Outcome = Completed | Raised(error: FsError)

  /** The state after a sequence of calls, and how the sequence ended. */
  datatype Effect = Effect(after: FsState, outcome: Outcome)

  /** A tree: the root is a directory, nothing is both a file and a directory,
      and the parent of every entry is a directory. */
  ghost predicate WellFormed(s: FsState) {
    && [] in s.dirs
    && s.files.Keys !! s.dirs
    && (forall d | d in s.dirs && d != [] :: Parent(d) in s.dirs)
    && (forall f | f in s.files :: f != [] && Parent(f) in s.dirs)
  }

  /** `d` and all its ancestors, the root included. */
  function Prefixes(d: Path): (r: set<Path>)
    ensures forall q | q in r :: q <= d
    ensures forall k | 0 <= k <= |d| :: d[..k] in r
  {
    set k | 0 <= k <= |d| :: d[..k]
  }

  /** Some non-root prefix of `d`, `d` itself included, is a file. */
  predicate BlockedByFile(s: FsState, d: Path) {
    exists k | 1 <= k <= |d| :: d[..k] in s.files
  }

  /** `os.makedirs(d, exist_ok=True)`: creates every missing directory on the
      way to `d`; it raises, creating nothing, when a file stands where a
      directory is needed. In a well-formed tree this is what CPython's
      recursive implementation does: the deepest existing prefix of `d` is
      then either a directory, below which everything is created, or a file,
      on which the first `mkdir` fails. */
  function MakeDirsFn(s: FsState, d: Path): (e: Effect)
    ensures e.after.files == s.files && s.dirs <= e.after.dirs
    ensures e.outcome.Raised? <==> exists k | 1 <= k <= |d| :: d[..k] in s.files
    ensures e.outcome.Raised? ==> e.after == s
    ensures e.outcome.Completed? ==> d in e.after.dirs
  {
    if BlockedByFile(s, d) then Effect(s, Raised(NotADirectory(d)))
    else
      assert d[..|d|] == d;
      Effect(s.(dirs := s.dirs + Prefixes(d)), Completed)
  }

  /** Where `shutil.copy2(src, dst)` writes: into `dst` under the source's
      basename when `dst` is a directory, otherwise `dst` itself. */
  function CopyTarget(s: FsState, src: Path, dst: Path): (t: Path)
    requires src != []
    ensures t == dst || (t != [] && Parent(t) == dst && Basename(t) == Basename(src))
    ensures t != dst <==> dst in s.dirs
  {
    if dst in s.dirs then dst + [Basename(src)] else dst
  }

  /** `shutil.copy2(src, dst)` on contents (timestamps are not modelled), with
      the checks of `shutil.copyfile` in the order it makes them. */
  function Copy2Fn(s: FsState, src: Path, dst: Path): (e: Effect)
    requires src != [] && dst != []
    ensures e.after.dirs == s.dirs && s.files.Keys <= e.after.files.Keys
    ensures e.outcome.Raised? ==> e.after == s
    ensures e.outcome.Completed? ==>
      var t := CopyTarget(s, src, dst);
      src in s.files && t in e.after.files && e.after.files[t] == s.files[src]
  {
    var target := CopyTarget(s, src, dst);
    if src == target && (src in s.files || src in s.dirs) then Effect(s, Raised(SameFile(src)))
    else if src !in s.files then Effect(s, Raised(SourceNotAFile(src)))
    else if target in s.dirs then Effect(s, Raised(DestinationIsADirectory(target)))
    else if Parent(target) !in s.dirs then Effect(s, Raised(DestinationParentMissing(target)))
    else Effect(s.(files := s.files[target := s.files[src]]), Completed)
  }

  /** In a tree, every proper prefix of an entry is a directory. */
  lemma {:induction false} AncestorIsDir(s: FsState, p: Path, k: nat)
    requires WellFormed(s)
    requires p in s.files || p in s.dirs
    requires k < |p|
    ensures p[..k] in s.dirs
    decreases |p|
  {
    var up := Parent(p);
    assert up in s.dirs;
    if k < |up| {
      AncestorIsDir(s, up, k);
      assert up[..k] == p[..k];
    }
  }

  /** What makedirs does: it raises exactly when a file is in the way; then
      nothing changes; otherwise `d` and all its ancestors are directories
      afterwards, no other directory appears and no file changes. */
  lemma MakeDirsSpec(s: FsState, d: Path)
    requires WellFormed(s)
    ensures var e := MakeDirsFn(s, d);
      && WellFormed(e.after)
      && e.after.files == s.files
      && (e.outcome.Completed? <==> forall k | 1 <= k <= |d| :: d[..k] !in s.files)
      && (e.outcome.Raised? ==> e.after == s)
      && (e.outcome.Completed? ==> Prefixes(d) <= e.after.dirs)
      && s.dirs <= e.after.dirs
      && (forall q | q in e.after.dirs && q !in s.dirs :: q <= d)
  {
    var e := MakeDirsFn(s, d);
    if e.outcome.Completed? {
      var t := e.after;
      forall q | q in t.dirs && q != [] ensures Parent(q) in t.dirs {
        if q !in s.dirs {
          assert q == d[..|q|];
          assert Parent(q) == d[..|q| - 1];
        }
      }
      forall q | q in Prefixes(d) ensures q !in s.files {
        assert q == d[..|q|];
        if |q| == 0 {
          assert q == [];
        }
      }
    }
  }

  /** Repeating makedirs changes nothing and ends the same way. */
  lemma MakeDirsIdempotent(s: FsState, d: Path)
    requires WellFormed(s)
    ensures var e := MakeDirsFn(s, d); MakeDirsFn(e.after, d) == e
  {
    MakeDirsSpec(s, d);
    var e := MakeDirsFn(s, d);
    if e.outcome.Completed? {
      assert e.after.dirs + Prefixes(d) == e.after.dirs;
    }
  }

  /** What copy2 does: it completes exactly when the source is a file other
      than the target, and the target is not a directory but sits in one;
      then the target holds the source's contents and no other entry
      changes; when it raises nothing changes. */
  lemma Copy2Spec(s: FsState, src: Path, dst: Path)
    requires WellFormed(s) && src != [] && dst != []
    ensures var e := Copy2Fn(s, src, dst); var target := CopyTarget(s, src, dst);
      && WellFormed(e.after)
      && e.after.dirs == s.dirs
      && (e.outcome.Completed? <==>
            src in s.files && src != target && target !in s.dirs && Parent(target) in s.dirs)
      && (e.outcome.Raised? ==> e.after == s)
      && (e.outcome.Completed? ==>
            && target in e.after.files && e.after.files[target] == s.files[src]
            && e.after.files.Keys == s.files.Keys + {target}
            && forall q | q in s.files && q != target :: e.after.files[q] == s.files[q])
  {
  }

  /** Copying a directory into its own parent names the directory itself as
      the target, and copyfile reports that as the same file. */
  lemma DirectoryOntoItself(s: FsState, p: Path, d: Name)
    requires p != [] && p + [d] in s.dirs && p in s.dirs
    ensures Copy2Fn(s, p + [d], p) == Effect(s, Raised(SameFile(p + [d])))
  {
    assert CopyTarget(s, p + [d], p) == p + [d];
  }

  /** makedirs of a directory whose ancestors all exist changes nothing. */
  lemma MakeDirsAtFixpoint(s: FsState, d: Path)
    requires WellFormed(s) && Prefixes(d) <= s.dirs
    ensures MakeDirsFn(s, d) == Effect(s, Completed)
  {
    forall k | 1 <= k <= |d| ensures d[..k] !in s.files {
      assert d[..k] in Prefixes(d);
    }
    assert s.dirs + Prefixes(d) == s.dirs;
  }

  /** Repeating a copy that completed changes nothing and completes again. */
  lemma Copy2Idempotent(s: FsState, src: Path, dst: Path)
    requires WellFormed(s) && src != [] && dst != []
    requires Copy2Fn(s, src, dst).outcome.Completed?
    ensures var e := Copy2Fn(s, src, dst); Copy2Fn(e.after, src, dst) == e
  {
    var e := Copy2Fn(s, src, dst);
    var target := CopyTarget(s, src, dst);
    assert CopyTarget(e.after, src, dst) == target;
    assert e.after.files[target := e.after.files[src]] == e.after.files;
  }

  /** The mutable file system the program runs against. */
  class FileSystem {
    var files: map<Path, Bytes>
    var dirs: set<Path>

    function State(): FsState
      reads this
    {
      FsState(files, dirs)
    }

    /** `os.makedirs(d, exist_ok=True)`. */
    method MakeDirs(d: Path) returns (outcome: Outcome)
      modifies this
      ensures Effect(State(), outcome) == MakeDirsFn(old(State()), d)
    {
      if BlockedByFile(State(), d) {
        outcome := Raised(NotADirectory(d));
      } else {
        dirs := dirs + Prefixes(d);
        outcome := Completed;
      }
    }

    /** `shutil.copy2(src, dst)`. */
    method Copy2(src: Path, dst: Path) returns (outcome: Outcome)
      requires src != [] && dst != []
      modifies this
      ensures Effect(State(), outcome) == Copy2Fn(old(State()), src, dst)
    {
      var target := dst;
      if dst in dirs {
        target := dst + [Basename(src)];
      }
      if src == target && (src in files || src in dirs) {
        outcome := Raised(SameFile(src));
      } else if src !in files {
        outcome := Raised(SourceNotAFile(src));
      } else if target in dirs {
        outcome := Raised(DestinationIsADirectory(target));
      } else if Parent(target) !in dirs {
        outcome := Raised(DestinationParentMissing(target));
      } else {
        files := files[target := files[src]];
        outcome := Completed;
      }
    }
  }
}
