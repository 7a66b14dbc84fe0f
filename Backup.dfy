/** The mirroring logic of backup-disc.py: the watchdog handler
    `FileChangeHandler` and the start-up pass `initial_copy`. The file system
    is a `FileSystem` object the methods change in place; the functions
    `HandleFn` and `InitialCopyFn` state what each run must leave behind. */
module Backup {
  import opened PathStrings
  import opened Paths
  import opened Fs
  import Classifier

  /** The part of a watchdog modification event the handler reads. */
  datatype ChangeEvent = ChangeEvent(srcPath: Path, isDirectory: bool)

  /** One triple of `os.walk(src_dir)`: a directory and the names of the
      files directly inside it (the sub-directory names are not used). */
  datatype WalkEntry = WalkEntry(root: Path, files: seq<Name>)

  /** Every path lies inside the source root, as `os.path.relpath` needs for
      the mirror to land inside the destination root. */
  predicate InSource(srcDir: Path, ps: seq<Path>) {
    forall i | 0 <= i < |ps| :: IsUnder(ps[i], srcDir)
  }

  /** `os.walk(src_dir)` yields only directories of the source tree. */
  predicate RootsInSource(srcDir: Path, walk: seq<WalkEntry>) {
    forall i | 0 <= i < |walk| :: srcDir <= walk[i].root
  }

  /** `os.makedirs(os.path.dirname(dest), exist_ok=True)` and then
      `shutil.copy2(src, dest)`: the two calls made for one file. An
      exception from the first means the second is not made. */
  function MirrorFileFn(s: FsState, srcFile: Path, destFile: Path): (e: Effect)
    requires srcFile != [] && destFile != []
    ensures s.dirs <= e.after.dirs && s.files.Keys <= e.after.files.Keys
    ensures e.outcome.Raised? ==> e.after.files == s.files
    ensures e.outcome.Completed? ==>
      var t := CopyTarget(s, srcFile, destFile);
      && srcFile in s.files && Parent(destFile) in e.after.dirs
      && t in e.after.files && e.after.files[t] == s.files[srcFile]
  {
    var made := MakeDirsFn(s, Parent(destFile));
    assert destFile !in Prefixes(Parent(destFile));
    if made.outcome.Raised? then made else Copy2Fn(made.after, srcFile, destFile)
  }

  /** What `on_modified` does with one event: a modified file whose full
      path classifies as a Word document is copied to its mirror; every
      other event is ignored. */
  function HandleFn(s: FsState, srcDir: Path, destDir: Path, ev: ChangeEvent): (e: Effect)
    requires ev.isDirectory || IsUnder(ev.srcPath, srcDir)
    ensures e != Effect(s, Completed) ==> !ev.isDirectory && Classifier.IsWordFile(JoinString(ev.srcPath))
    ensures e.outcome.Completed? && !ev.isDirectory && Classifier.IsWordFile(JoinString(ev.srcPath)) ==>
      var m := MirrorPath(srcDir, destDir, ev.srcPath);
      var t := CopyTarget(s, ev.srcPath, m);
      && ev.srcPath in s.files && Parent(m) in e.after.dirs
      && t in e.after.files && e.after.files[t] == s.files[ev.srcPath]
  {
    if !ev.isDirectory && Classifier.IsWordFile(JoinString(ev.srcPath)) then
      MirrorFileFn(s, ev.srcPath, MirrorPath(srcDir, destDir, ev.srcPath))
    else
      Effect(s, Completed)
  }

  /** What the body of `initial_copy`'s inner loop does with one file: it
      classifies the bare file name the walk lists. */
  function InitialStepFn(s: FsState, srcDir: Path, destDir: Path, f: Path): (e: Effect)
    requires IsUnder(f, srcDir)
    ensures e != Effect(s, Completed) ==> Classifier.IsWordFile(Basename(f))
    ensures e.outcome.Completed? && Classifier.IsWordFile(Basename(f)) ==>
      var m := MirrorPath(srcDir, destDir, f);
      var t := CopyTarget(s, f, m);
      && f in s.files && Parent(m) in e.after.dirs
      && t in e.after.files && e.after.files[t] == s.files[f]
  {
    if Classifier.IsWordFile(Basename(f)) then
      MirrorFileFn(s, f, MirrorPath(srcDir, destDir, f))
    else
      Effect(s, Completed)
  }

  /** Handling the files `ps` one after the other, in order; the first
      exception ends the run and leaves the state as it is at that moment. */
  function CopyAllFn(s: FsState, srcDir: Path, destDir: Path, ps: seq<Path>): (e: Effect)
    requires InSource(srcDir, ps)
    ensures s.dirs <= e.after.dirs && s.files.Keys <= e.after.files.Keys
  {
    if ps == [] then
      Effect(s, Completed)
    else
      var e := CopyAllFn(s, srcDir, destDir, ps[..|ps| - 1]);
      if e.outcome.Raised? then e else InitialStepFn(e.after, srcDir, destDir, ps[|ps| - 1])
  }

  /** `os.path.join(root, file)` for every file of one walk entry. */
  function EntryPaths(root: Path, names: seq<Name>): (r: seq<Path>)
    ensures |r| == |names|
    ensures forall j | 0 <= j < |r| :: r[j] != [] && Parent(r[j]) == root && Basename(r[j]) == names[j]
  {
    seq(|names|, j requires 0 <= j < |names| => root + [names[j]])
  }

  /** The files of a walk, in the order `initial_copy` meets them. */
  function WalkPaths(walk: seq<WalkEntry>): seq<Path>
  {
    if walk == [] then []
    else
      var last := walk[|walk| - 1];
      WalkPaths(walk[..|walk| - 1]) + EntryPaths(last.root, last.files)
  }

  /** What `initial_copy(src_dir, dest_dir)` does, given the walk of the
      source tree. */
  function InitialCopyFn(s: FsState, srcDir: Path, destDir: Path, walk: seq<WalkEntry>): (e: Effect)
    requires RootsInSource(srcDir, walk)
    ensures s.dirs <= e.after.dirs && s.files.Keys <= e.after.files.Keys
  {
    WalkPathsInSource(srcDir, walk);
    CopyAllFn(s, srcDir, destDir, WalkPaths(walk))
  }

  /** A walk of directories inside the source root lists only files inside it. */
  lemma {:induction false} WalkPathsInSource(srcDir: Path, walk: seq<WalkEntry>)
    requires RootsInSource(srcDir, walk)
    ensures InSource(srcDir, WalkPaths(walk))
  {
    if walk != [] {
      var init := walk[..|walk| - 1];
      var last := walk[|walk| - 1];
      WalkPathsInSource(srcDir, init);
      var ep := EntryPaths(last.root, last.files);
      forall j | 0 <= j < |ep| ensures IsUnder(ep[j], srcDir) {
        assert ep[j][..|srcDir|] == last.root[..|srcDir|];
      }
    }
  }

  /** Every file a walk entry names is among the walk's files, at its
      directory. */
  lemma {:induction false} WalkPathsListsEveryFile(walk: seq<WalkEntry>)
    ensures forall i, j | 0 <= i < |walk| && 0 <= j < |walk[i].files| ::
      walk[i].root + [walk[i].files[j]] in WalkPaths(walk)
  {
    if walk != [] {
      var init := walk[..|walk| - 1];
      var last := walk[|walk| - 1];
      WalkPathsListsEveryFile(init);
      var ep := EntryPaths(last.root, last.files);
      forall i, j | 0 <= i < |walk| && 0 <= j < |walk[i].files|
        ensures walk[i].root + [walk[i].files[j]] in WalkPaths(walk)
      {
        if i < |init| {
          assert walk[i] == init[i];
          assert walk[i].root + [walk[i].files[j]] in WalkPaths(init);
        } else {
          assert ep[j] == last.root + [last.files[j]];
        }
      }
    }
  }

  /** The walk's files are those of its entries, in order. */
  lemma {:induction false} WalkPathsAppend(a: seq<WalkEntry>, b: seq<WalkEntry>)
    ensures WalkPaths(a + b) == WalkPaths(a) + WalkPaths(b)
    decreases |b|
  {
    if b == [] {
      assert a + b == a;
    } else {
      var init := b[..|b| - 1];
      var last := b[|b| - 1];
      assert (a + b)[..|a + b| - 1] == a + init;
      assert (a + b)[|a + b| - 1] == last;
      WalkPathsAppend(a, init);
    }
  }

  lemma EntryPathsSplit(root: Path, names: seq<Name>, j: nat)
    requires j <= |names|
    ensures EntryPaths(root, names) == EntryPaths(root, names[..j]) + EntryPaths(root, names[j..])
  {
  }

  /** Handling `a + b` is handling `a` and then, unless that raised, `b`. */
  lemma {:induction false} CopyAllAppend(s: FsState, srcDir: Path, destDir: Path, a: seq<Path>, b: seq<Path>)
    requires InSource(srcDir, a) && InSource(srcDir, b) && InSource(srcDir, a + b)
    ensures var ea := CopyAllFn(s, srcDir, destDir, a);
      CopyAllFn(s, srcDir, destDir, a + b) ==
        if ea.outcome.Raised? then ea else CopyAllFn(ea.after, srcDir, destDir, b)
    decreases |b|
  {
    if b == [] {
      assert a + b == a;
    } else {
      var init := b[..|b| - 1];
      assert (a + b)[..|a + b| - 1] == a + init;
      assert (a + b)[|a + b| - 1] == b[|b| - 1];
      CopyAllAppend(s, srcDir, destDir, a, init);
    }
  }

  /** Once handling a prefix has raised, the rest of the files are not handled. */
  lemma CopyAllSticky(s: FsState, srcDir: Path, destDir: Path, ps: seq<Path>, qs: seq<Path>)
    requires InSource(srcDir, ps) && InSource(srcDir, qs) && InSource(srcDir, ps + qs)
    requires CopyAllFn(s, srcDir, destDir, ps).outcome.Raised?
    ensures CopyAllFn(s, srcDir, destDir, ps + qs) == CopyAllFn(s, srcDir, destDir, ps)
  {
    CopyAllAppend(s, srcDir, destDir, ps, qs);
  }

  /** Every file of an entry lies inside the source root when the entry's
      directory does. */
  lemma EntryPathsInSource(srcDir: Path, root: Path, names: seq<Name>)
    requires srcDir <= root
    ensures InSource(srcDir, EntryPaths(root, names))
  {
    var ep := EntryPaths(root, names);
    forall j | 0 <= j < |ep| ensures IsUnder(ep[j], srcDir) {
      assert ep[j][..|srcDir|] == root[..|srcDir|];
    }
  }

  /** The files of the first `i + 1` entries of a walk. */
  lemma WalkPrefixStep(srcDir: Path, walk: seq<WalkEntry>, i: nat)
    requires RootsInSource(srcDir, walk) && i < |walk|
    ensures RootsInSource(srcDir, walk[..i + 1])
    ensures InSource(srcDir, WalkPaths(walk[..i])) && InSource(srcDir, WalkPaths(walk[..i + 1]))
    ensures InSource(srcDir, EntryPaths(walk[i].root, walk[i].files))
    ensures WalkPaths(walk[..i + 1]) == WalkPaths(walk[..i]) + EntryPaths(walk[i].root, walk[i].files)
  {
    assert walk[..i + 1][..i] == walk[..i];
    WalkPathsInSource(srcDir, walk[..i]);
    WalkPathsInSource(srcDir, walk[..i + 1]);
    EntryPathsInSource(srcDir, walk[i].root, walk[i].files);
  }

  /** When the first `i` entries of a walk raise, so does the whole walk,
      leaving the same state. */
  lemma WalkPrefixRaised(s: FsState, srcDir: Path, destDir: Path, walk: seq<WalkEntry>, i: nat)
    requires RootsInSource(srcDir, walk) && i <= |walk|
    requires InSource(srcDir, WalkPaths(walk[..i]))
    requires CopyAllFn(s, srcDir, destDir, WalkPaths(walk[..i])).outcome.Raised?
    ensures InSource(srcDir, WalkPaths(walk))
    ensures CopyAllFn(s, srcDir, destDir, WalkPaths(walk)) == CopyAllFn(s, srcDir, destDir, WalkPaths(walk[..i]))
  {
    WalkSplit(srcDir, walk, i);
    CopyAllSticky(s, srcDir, destDir, WalkPaths(walk[..i]), WalkPaths(walk[i..]));
  }

  /** The files of a walk are those of its first `i` entries followed by
      those of the rest, all inside the source root. */
  lemma WalkSplit(srcDir: Path, walk: seq<WalkEntry>, i: nat)
    requires RootsInSource(srcDir, walk) && i <= |walk|
    ensures InSource(srcDir, WalkPaths(walk)) && InSource(srcDir, WalkPaths(walk[i..]))
    ensures InSource(srcDir, WalkPaths(walk[..i]))
    ensures WalkPaths(walk) == WalkPaths(walk[..i]) + WalkPaths(walk[i..])
  {
    var head, tail := walk[..i], walk[i..];
    assert walk == head + tail;
    assert RootsInSource(srcDir, tail);
    assert RootsInSource(srcDir, head);
    WalkPathsAppend(head, tail);
    WalkPathsInSource(srcDir, walk);
    WalkPathsInSource(srcDir, head);
    WalkPathsInSource(srcDir, tail);
  }

  /** The two calls for one file, on a real file system. */
  method MirrorFile(fs: FileSystem, srcFile: Path, destFile: Path) returns (outcome: Outcome)
    requires srcFile != [] && destFile != []
    modifies fs
    ensures Effect(fs.State(), outcome) == MirrorFileFn(old(fs.State()), srcFile, destFile)
  {
    outcome := fs.MakeDirs(Parent(destFile));
    if outcome.Completed? {
      outcome := fs.Copy2(srcFile, destFile);
    }
  }

  /** The watchdog handler, bound to one source and one destination root. */
  class FileChangeHandler {
    const srcDir: Path
    const destDir: Path

    constructor (srcDir: Path, destDir: Path)
      ensures this.srcDir == srcDir && this.destDir == destDir
    {
      this.srcDir := srcDir;
      this.destDir := destDir;
    }

    /** `is_word_file` of the handler, which `on_modified` applies to the
        full path: only the final component decides, exactly as the module
        function applied to the bare name. */
    function IsWordFile(filePath: string): (r: bool)
      ensures r == Classifier.IsWordFile(LastComponent(filePath))
      ensures r <==> Classifier.HasWordSuffix(LastComponent(filePath))
    {
      ExtOfLastComponent(filePath);
      Classifier.IsWordFileIffWordSuffix(filePath);
      Classifier.IsWordFile(filePath)
    }

    /** `on_modified`. An exception from the copy reaches watchdog's thread;
        here it is the outcome. */
    method OnModified(fs: FileSystem, ev: ChangeEvent) returns (outcome: Outcome)
      requires ev.isDirectory || IsUnder(ev.srcPath, srcDir)
      modifies fs
      ensures Effect(fs.State(), outcome) == HandleFn(old(fs.State()), srcDir, destDir, ev)
    {
      if !ev.isDirectory && IsWordFile(JoinString(ev.srcPath)) {
        var srcFilePath := ev.srcPath;
        var destFilePath := Join(destDir, RelPath(srcFilePath, srcDir));
        outcome := MirrorFile(fs, srcFilePath, destFilePath);
      } else {
        outcome := Completed;
      }
    }
  }

  /** The inner loop of `initial_copy`: the files of one walk entry. */
  method CopyEntry(fs: FileSystem, srcDir: Path, destDir: Path, root: Path, files: seq<Name>)
    returns (outcome: Outcome)
    requires srcDir <= root
    modifies fs
    ensures InSource(srcDir, EntryPaths(root, files))
    ensures Effect(fs.State(), outcome) == CopyAllFn(old(fs.State()), srcDir, destDir, EntryPaths(root, files))
  {
    ghost var s0 := fs.State();
    EntryPathsInSource(srcDir, root, files);
    var j := 0;
    assert files[..0] == [];
    while j < |files|
      invariant 0 <= j <= |files|
      invariant InSource(srcDir, EntryPaths(root, files[..j]))
      invariant Effect(fs.State(), Completed) == CopyAllFn(s0, srcDir, destDir, EntryPaths(root, files[..j]))
    {
      var file := files[j];
      var srcFilePath := root + [file];
      ghost var done := EntryPaths(root, files[..j + 1]);
      assert done[..j] == EntryPaths(root, files[..j]) && done[j] == srcFilePath;
      EntryPathsInSource(srcDir, root, files[..j + 1]);
      if Classifier.IsWordFile(file) {
        var destFilePath := Join(destDir, RelPath(srcFilePath, srcDir));
        outcome := MirrorFile(fs, srcFilePath, destFilePath);
        if outcome.Raised? {
          EntryPathsSplit(root, files, j + 1);
          EntryPathsInSource(srcDir, root, files[j + 1..]);
          CopyAllSticky(s0, srcDir, destDir, done, EntryPaths(root, files[j + 1..]));
          return;
        }
      }
      j := j + 1;
    }
    assert files[..|files|] == files;
    outcome := Completed;
  }

  /** `initial_copy`, over the walk of the source tree. */
  method InitialCopy(fs: FileSystem, srcDir: Path, destDir: Path, walk: seq<WalkEntry>)
    returns (outcome: Outcome)
    requires RootsInSource(srcDir, walk)
    modifies fs
    ensures Effect(fs.State(), outcome) == InitialCopyFn(old(fs.State()), srcDir, destDir, walk)
  {
    ghost var s0 := fs.State();
    WalkPathsInSource(srcDir, walk);
    var i := 0;
    while i < |walk|
      invariant 0 <= i <= |walk|
      invariant RootsInSource(srcDir, walk[..i])
      invariant InSource(srcDir, WalkPaths(walk[..i]))
      invariant Effect(fs.State(), Completed) == CopyAllFn(s0, srcDir, destDir, WalkPaths(walk[..i]))
    {
      WalkPrefixStep(srcDir, walk, i);
      outcome := CopyEntry(fs, srcDir, destDir, walk[i].root, walk[i].files);
      CopyAllAppend(s0, srcDir, destDir, WalkPaths(walk[..i]), EntryPaths(walk[i].root, walk[i].files));
      if outcome.Raised? {
        WalkPrefixRaised(s0, srcDir, destDir, walk, i + 1);
        return;
      }
      i := i + 1;
    }
    assert walk[..|walk|] == walk;
    outcome := Completed;
  }
}
