/** What the two mirroring runs of backup-disc.py guarantee: after
    `on_modified` and after `initial_copy`, the destination holds the Word
    documents of the source, nothing else changes, and running again
    changes nothing. */
module BackupProofs {
  import opened PathStrings
  import opened Paths
  import opened Fs
  import opened Backup
  import Classifier

  /** The file the walk lists at `f` is a Word document by its bare name. */
  predicate Tracked(f: Path)
    requires f != []
  {
    Classifier.IsWordFile(Basename(f))
  }

  /** Where the copy of `f` lands, judged in the state before the run: at its
      mirror, or inside it when the destination already has a directory by
      that name. */
  function Landing(s0: FsState, srcDir: Path, destDir: Path, f: Path): Path
    requires IsUnder(f, srcDir)
  {
    CopyTarget(s0, f, MirrorPath(srcDir, destDir, f))
  }

  /** A directory a run may create: an ancestor of the destination root, or
      the mirror of a directory of the source tree. */
  predicate MayCreateDir(s0: FsState, srcDir: Path, destDir: Path, d: Path) {
    d <= destDir || (IsUnder(d, destDir) && srcDir + RelPath(d, destDir) in s0.dirs)
  }

  /** The roots do not overlap and `ps` are files of the source tree. */
  ghost predicate Setting(s0: FsState, srcDir: Path, destDir: Path, ps: seq<Path>) {
    && WellFormed(s0)
    && Disjoint(srcDir, destDir)
    && InSource(srcDir, ps)
    && (forall p | p in ps :: p in s0.files && IsUnder(p, srcDir))
  }

  /** A file whose presence or contents differs between `s0` and `s`. */
  predicate Changed(s0: FsState, s: FsState, q: Path) {
    q in s.files && (q !in s0.files || s.files[q] != s0.files[q])
  }

  /** What handling the files `ps` may do to `s0`: the result is a tree,
      directories are only added and only those MayCreateDir allows, no file
      disappears, and the only files written are the landings of the Word
      documents among `ps`, all inside the destination root. */
  ghost predicate Frame(s0: FsState, s: FsState, srcDir: Path, destDir: Path, ps: seq<Path>) {
    && WellFormed(s)
    && s0.dirs <= s.dirs
    && (forall d | d in s.dirs && d !in s0.dirs :: MayCreateDir(s0, srcDir, destDir, d))
    && s0.files.Keys <= s.files.Keys
    && (forall q | Changed(s0, s, q) :: IsUnder(q, destDir))
    && (forall q | Changed(s0, s, q) ::
          exists p | p in ps && IsUnder(p, srcDir) && Tracked(p) :: q == Landing(s0, srcDir, destDir, p))
  }

  /** Every Word document among `ps` is mirrored: the directories on the way
      to its mirror exist and its landing holds its original contents. */
  ghost predicate Done(s0: FsState, s: FsState, srcDir: Path, destDir: Path, ps: seq<Path>) {
    forall p | p in ps && IsUnder(p, srcDir) && p in s0.files && Tracked(p) ::
      && Prefixes(Parent(MirrorPath(srcDir, destDir, p))) <= s.dirs
      && Landing(s0, srcDir, destDir, p) in s.files
      && s.files[Landing(s0, srcDir, destDir, p)] == s0.files[p]
  }

  /** The directories on the way to the mirror of a source file are ones
      a run may create. */
  lemma MirrorAncestor(s0: FsState, srcDir: Path, destDir: Path, f: Path, k: nat)
    requires WellFormed(s0) && f in s0.files && IsUnder(f, srcDir)
    requires k < |MirrorPath(srcDir, destDir, f)|
    ensures MayCreateDir(s0, srcDir, destDir, MirrorPath(srcDir, destDir, f)[..k])
  {
    var r := RelPath(f, srcDir);
    var m := MirrorPath(srcDir, destDir, f);
    assert m == destDir + r;
    var d := m[..k];
    if k <= |destDir| {
      assert d == destDir[..k];
    } else {
      assert d[..|destDir|] == destDir;
      assert RelPath(d, destDir) == r[..k - |destDir|];
      assert srcDir + r[..k - |destDir|] == f[..|srcDir| + k - |destDir|];
      AncestorIsDir(s0, f, |srcDir| + k - |destDir|);
    }
  }

  /** No run creates a directory where a source file's copy goes. */
  lemma LandingNotCreated(s0: FsState, srcDir: Path, destDir: Path, f: Path)
    requires WellFormed(s0) && f in s0.files && IsUnder(f, srcDir)
    ensures !MayCreateDir(s0, srcDir, destDir, MirrorPath(srcDir, destDir, f))
    ensures forall b: Name :: !MayCreateDir(s0, srcDir, destDir, MirrorPath(srcDir, destDir, f) + [b])
  {
    var r := RelPath(f, srcDir);
    var m := MirrorPath(srcDir, destDir, f);
    assert m == destDir + r;
    assert RelPath(m, destDir) == r;
    forall b: Name ensures !MayCreateDir(s0, srcDir, destDir, m + [b]) {
      var d := m + [b];
      assert d[..|destDir|] == destDir;
      assert RelPath(d, destDir) == r + [b];
      assert srcDir + (r + [b]) == f + [b];
      assert Parent(f + [b]) == f;
    }
  }

  /** Distinct source files land in distinct places. */
  lemma LandingInjective(s0: FsState, srcDir: Path, destDir: Path, p: Path, f: Path)
    requires WellFormed(s0)
    requires p in s0.files && IsUnder(p, srcDir) && f in s0.files && IsUnder(f, srcDir)
    ensures Landing(s0, srcDir, destDir, p) == Landing(s0, srcDir, destDir, f) ==> p == f
  {
    var mp, mf := MirrorPath(srcDir, destDir, p), MirrorPath(srcDir, destDir, f);
    var tp, tf := Landing(s0, srcDir, destDir, p), Landing(s0, srcDir, destDir, f);
    MirrorPrefix(srcDir, destDir, p, f);
    MirrorPrefix(srcDir, destDir, f, p);
    if mp in s0.dirs && mf in s0.dirs {
      assert tp == tf ==> mp == tp[..|tp| - 1] == mf;
    } else if mp in s0.dirs {
      InsideMirrorOfFile(s0, srcDir, destDir, p, f);
    } else if mf in s0.dirs {
      InsideMirrorOfFile(s0, srcDir, destDir, f, p);
    }
  }

  /** The landing inside the mirror of one source file is never the plain
      mirror of another. */
  lemma InsideMirrorOfFile(s0: FsState, srcDir: Path, destDir: Path, p: Path, f: Path)
    requires WellFormed(s0)
    requires p in s0.files && IsUnder(p, srcDir) && f in s0.files && IsUnder(f, srcDir)
    ensures MirrorPath(srcDir, destDir, p) + [Basename(p)] != MirrorPath(srcDir, destDir, f)
  {
    var mp, mf := MirrorPath(srcDir, destDir, p), MirrorPath(srcDir, destDir, f);
    MirrorPrefix(srcDir, destDir, p, f);
    var up, uf := Parent(mf), Parent(f);
    assert uf in s0.dirs;
    assert mp + [Basename(p)] == mf ==> mp == up;
    assert mp == up ==> p == uf;
  }

  /** A landing lies inside the destination root. */
  lemma LandingUnderDest(s0: FsState, srcDir: Path, destDir: Path, f: Path)
    requires IsUnder(f, srcDir)
    ensures IsUnder(Landing(s0, srcDir, destDir, f), destDir)
  {
    var m := MirrorPath(srcDir, destDir, f);
    assert (m + [Basename(f)])[..|destDir|] == m[..|destDir|];
  }

  /** Under a frame, the source tree's files are as they were. */
  lemma SourceUntouched(s0: FsState, s: FsState, srcDir: Path, destDir: Path, ps: seq<Path>, f: Path)
    requires Disjoint(srcDir, destDir) && Frame(s0, s, srcDir, destDir, ps)
    requires f in s0.files && IsUnder(f, srcDir)
    ensures f in s.files && s.files[f] == s0.files[f]
  {
    DisjointRoots(srcDir, destDir, f);
  }

  /** Under a frame, the mirror of a source file is a directory exactly when
      it was one before the run, so the copy goes to the landing. */
  lemma TargetStable(s0: FsState, s: FsState, srcDir: Path, destDir: Path, ps: seq<Path>, f: Path)
    requires WellFormed(s0) && Frame(s0, s, srcDir, destDir, ps)
    requires f in s0.files && IsUnder(f, srcDir)
    ensures CopyTarget(s, f, MirrorPath(srcDir, destDir, f)) == Landing(s0, srcDir, destDir, f)
  {
    LandingNotCreated(s0, srcDir, destDir, f);
  }

  /** A frame for `ps` is one for any list that contains `ps`. */
  lemma FrameGrows(s0: FsState, s: FsState, srcDir: Path, destDir: Path, ps: seq<Path>, qs: seq<Path>)
    requires Frame(s0, s, srcDir, destDir, ps)
    requires forall p | p in ps :: p in qs
    ensures Frame(s0, s, srcDir, destDir, qs)
  {
    forall q | Changed(s0, s, q)
      ensures exists p | p in qs && IsUnder(p, srcDir) && Tracked(p) :: q == Landing(s0, srcDir, destDir, p)
    {
      var p :| p in ps && IsUnder(p, srcDir) && Tracked(p) && q == Landing(s0, srcDir, destDir, p);
      assert p in qs;
    }
  }

  /** makedirs on the way to a source file's mirror keeps the frame. */
  lemma MakeDirsKeeps(s0: FsState, s: FsState, srcDir: Path, destDir: Path, ps: seq<Path>, f: Path)
    requires WellFormed(s0) && f in s0.files && IsUnder(f, srcDir)
    requires Frame(s0, s, srcDir, destDir, ps)
    ensures var made := MakeDirsFn(s, Parent(MirrorPath(srcDir, destDir, f)));
      Frame(s0, made.after, srcDir, destDir, ps)
  {
    var m := MirrorPath(srcDir, destDir, f);
    var made := MakeDirsFn(s, Parent(m));
    MakeDirsSpec(s, Parent(m));
    forall d | d in made.after.dirs && d !in s0.dirs ensures MayCreateDir(s0, srcDir, destDir, d) {
      if d !in s.dirs {
        assert d == m[..|d|];
        MirrorAncestor(s0, srcDir, destDir, f, |d|);
      }
    }
    forall q | Changed(s0, made.after, q) ensures Changed(s0, s, q) {
    }
  }

  /** Writing the landing of `f` keeps the frame, now counting `f`. */
  lemma WriteKeepsFrame(s0: FsState, s: FsState, s2: FsState, srcDir: Path, destDir: Path,
                        ps: seq<Path>, f: Path, v: Bytes)
    requires IsUnder(f, srcDir) && Tracked(f)
    requires Frame(s0, s, srcDir, destDir, ps) && WellFormed(s2) && s2.dirs == s.dirs
    requires s2.files == s.files[Landing(s0, srcDir, destDir, f) := v]
    ensures Frame(s0, s2, srcDir, destDir, ps + [f])
  {
    var t := Landing(s0, srcDir, destDir, f);
    LandingUnderDest(s0, srcDir, destDir, f);
    forall q | Changed(s0, s2, q)
      ensures IsUnder(q, destDir)
      ensures exists p | p in ps + [f] && IsUnder(p, srcDir) && Tracked(p) :: q == Landing(s0, srcDir, destDir, p)
    {
      if q == t {
        assert f in ps + [f];
      } else {
        assert Changed(s0, s, q);
        var p :| p in ps && IsUnder(p, srcDir) && Tracked(p) && q == Landing(s0, srcDir, destDir, p);
        assert p in ps + [f];
      }
    }
  }

  /** Writing the landing of `f` with its contents keeps what is mirrored
      and adds `f`. */
  lemma WriteKeepsDone(s0: FsState, s: FsState, s2: FsState, srcDir: Path, destDir: Path,
                       ps: seq<Path>, f: Path)
    requires WellFormed(s0) && f in s0.files && IsUnder(f, srcDir)
    requires forall p | p in ps :: p in s0.files && IsUnder(p, srcDir)
    requires Done(s0, s, srcDir, destDir, ps) && s.dirs <= s2.dirs
    requires Prefixes(Parent(MirrorPath(srcDir, destDir, f))) <= s2.dirs
    requires s2.files == s.files[Landing(s0, srcDir, destDir, f) := s0.files[f]]
    ensures Done(s0, s2, srcDir, destDir, ps + [f])
  {
    var t := Landing(s0, srcDir, destDir, f);
    forall p | p in ps + [f] && IsUnder(p, srcDir) && p in s0.files && Tracked(p)
      ensures Prefixes(Parent(MirrorPath(srcDir, destDir, p))) <= s2.dirs
      ensures Landing(s0, srcDir, destDir, p) in s2.files
      ensures s2.files[Landing(s0, srcDir, destDir, p)] == s0.files[p]
    {
      if Landing(s0, srcDir, destDir, p) == t {
        LandingInjective(s0, srcDir, destDir, p, f);
      } else {
        assert p in ps;
      }
    }
  }

  /** The copy to a source file's mirror keeps the frame, now counting
      `f`, and adds `f` to the mirrored files when it completes. */
  lemma CopyKeeps(s0: FsState, s: FsState, srcDir: Path, destDir: Path, ps: seq<Path>, f: Path)
    requires Setting(s0, srcDir, destDir, ps + [f]) && Tracked(f)
    requires Frame(s0, s, srcDir, destDir, ps)
    ensures var e := Copy2Fn(s, f, MirrorPath(srcDir, destDir, f));
      && Frame(s0, e.after, srcDir, destDir, ps + [f])
      && (e.outcome.Completed? && Done(s0, s, srcDir, destDir, ps)
          && Prefixes(Parent(MirrorPath(srcDir, destDir, f))) <= s.dirs ==>
            Done(s0, e.after, srcDir, destDir, ps + [f]))
  {
    assert f in ps + [f];
    var m := MirrorPath(srcDir, destDir, f);
    var e := Copy2Fn(s, f, m);
    TargetStable(s0, s, srcDir, destDir, ps, f);
    SourceUntouched(s0, s, srcDir, destDir, ps, f);
    Copy2Spec(s, f, m);
    if e.outcome.Completed? {
      var t := Landing(s0, srcDir, destDir, f);
      assert e.after.files == s.files[t := s0.files[f]];
      WriteKeepsFrame(s0, s, e.after, srcDir, destDir, ps, f, s0.files[f]);
      if Done(s0, s, srcDir, destDir, ps) && Prefixes(Parent(m)) <= s.dirs {
        WriteKeepsDone(s0, s, e.after, srcDir, destDir, ps, f);
      }
    } else {
      FrameGrows(s0, s, srcDir, destDir, ps, ps + [f]);
    }
  }

  /** One step of a run keeps the frame and, when it completes, what is
      already mirrored. */
  lemma StepKeeps(s0: FsState, s: FsState, srcDir: Path, destDir: Path, ps: seq<Path>, f: Path)
    requires Setting(s0, srcDir, destDir, ps + [f])
    requires Frame(s0, s, srcDir, destDir, ps)
    ensures var e := InitialStepFn(s, srcDir, destDir, f);
      && Frame(s0, e.after, srcDir, destDir, ps + [f])
      && (e.outcome.Completed? && Done(s0, s, srcDir, destDir, ps) ==>
            Done(s0, e.after, srcDir, destDir, ps + [f]))
  {
    assert f in ps + [f];
    FrameGrows(s0, s, srcDir, destDir, ps, ps + [f]);
    if Tracked(f) {
      var m := MirrorPath(srcDir, destDir, f);
      var made := MakeDirsFn(s, Parent(m));
      MakeDirsKeeps(s0, s, srcDir, destDir, ps, f);
      MakeDirsSpec(s, Parent(m));
      if made.outcome.Completed? {
        FrameGrows(s0, made.after, srcDir, destDir, ps, ps + [f]);
        CopyKeeps(s0, made.after, srcDir, destDir, ps, f);
      } else {
        FrameGrows(s0, made.after, srcDir, destDir, ps, ps + [f]);
      }
    }
  }

  /** Every run keeps the frame and, when it completes, mirrors every Word
      document it met. */
  lemma {:induction false} CopyAllKeeps(s0: FsState, srcDir: Path, destDir: Path, ps: seq<Path>)
    requires Setting(s0, srcDir, destDir, ps)
    ensures var e := CopyAllFn(s0, srcDir, destDir, ps);
      && Frame(s0, e.after, srcDir, destDir, ps)
      && (e.outcome.Completed? ==> Done(s0, e.after, srcDir, destDir, ps))
  {
    if ps != [] {
      var init := ps[..|ps| - 1];
      var f := ps[|ps| - 1];
      assert ps == init + [f];
      assert Setting(s0, srcDir, destDir, init);
      CopyAllKeeps(s0, srcDir, destDir, init);
      var e := CopyAllFn(s0, srcDir, destDir, init);
      if e.outcome.Raised? {
        FrameGrows(s0, e.after, srcDir, destDir, init, ps);
      } else {
        StepKeeps(s0, e.after, srcDir, destDir, init, f);
      }
    }
  }

  /** Once every Word document among `ps` is mirrored, handling one of `ps`
      again changes nothing and completes, whichever files `fs` the run that
      led there handled. */
  lemma StepAtFixpoint(s0: FsState, s: FsState, srcDir: Path, destDir: Path, fs: seq<Path>, ps: seq<Path>, f: Path)
    requires Setting(s0, srcDir, destDir, ps) && f in ps
    requires Frame(s0, s, srcDir, destDir, fs) && Done(s0, s, srcDir, destDir, ps)
    ensures InitialStepFn(s, srcDir, destDir, f) == Effect(s, Completed)
  {
    if Tracked(f) {
      var m := MirrorPath(srcDir, destDir, f);
      var t := Landing(s0, srcDir, destDir, f);
      MakeDirsAtFixpoint(s, Parent(m));
      TargetStable(s0, s, srcDir, destDir, fs, f);
      SourceUntouched(s0, s, srcDir, destDir, fs, f);
      LandingUnderDest(s0, srcDir, destDir, f);
      DisjointRoots(srcDir, destDir, f);
      assert t in s.files && f != t;
      assert s.files[t := s.files[f]] == s.files;
    }
  }

  lemma {:induction false} CopyAllAtFixpoint(s0: FsState, s: FsState, srcDir: Path, destDir: Path,
                                             fs: seq<Path>, ps: seq<Path>, qs: seq<Path>)
    requires Setting(s0, srcDir, destDir, ps) && InSource(srcDir, qs)
    requires forall q | q in qs :: q in ps
    requires Frame(s0, s, srcDir, destDir, fs) && Done(s0, s, srcDir, destDir, ps)
    ensures CopyAllFn(s, srcDir, destDir, qs) == Effect(s, Completed)
    decreases |qs|
  {
    if qs != [] {
      var init := qs[..|qs| - 1];
      assert forall q | q in init :: q in qs;
      CopyAllAtFixpoint(s0, s, srcDir, destDir, fs, ps, init);
      assert qs[|qs| - 1] in qs;
      StepAtFixpoint(s0, s, srcDir, destDir, fs, ps, qs[|qs| - 1]);
    }
  }

  /** Nothing written for one source file lies above the mirror of another. */
  lemma NoLandingAboveMirror(s0: FsState, srcDir: Path, destDir: Path, p: Path, f: Path)
    requires WellFormed(s0)
    requires p in s0.files && IsUnder(p, srcDir) && f in s0.files && IsUnder(f, srcDir)
    ensures !(Landing(s0, srcDir, destDir, p) < MirrorPath(srcDir, destDir, f))
  {
    var mp, mf := MirrorPath(srcDir, destDir, p), MirrorPath(srcDir, destDir, f);
    MirrorPrefix(srcDir, destDir, p, f);
    if |p| < |f| {
      AncestorIsDir(s0, f, |p|);
      assert f[..|p|] != p;
    }
    assert !(mp < mf);
    assert mp <= Landing(s0, srcDir, destDir, p);
  }

  /** A source file can be mirrored from `s0` when no file stands where a
      directory on the way to its mirror must be and no directory stands
      where its copy goes. */
  predicate CanMirror(s0: FsState, srcDir: Path, destDir: Path, f: Path)
    requires IsUnder(f, srcDir)
  {
    !BlockedByFile(s0, Parent(MirrorPath(srcDir, destDir, f))) && Landing(s0, srcDir, destDir, f) !in s0.dirs
  }

  /** Under a frame, whether a step completes is decided by the state before
      the run. */
  lemma StepCompletes(s0: FsState, s: FsState, srcDir: Path, destDir: Path, ps: seq<Path>, f: Path)
    requires Setting(s0, srcDir, destDir, ps + [f])
    requires Frame(s0, s, srcDir, destDir, ps)
    ensures InitialStepFn(s, srcDir, destDir, f).outcome.Completed? <==>
      (Tracked(f) ==> CanMirror(s0, srcDir, destDir, f))
  {
    assert f in ps + [f];
    if Tracked(f) {
      var m := MirrorPath(srcDir, destDir, f);
      BlockedAsBefore(s0, s, srcDir, destDir, ps, f);
      var made := MakeDirsFn(s, Parent(m));
      MakeDirsSpec(s, Parent(m));
      if made.outcome.Completed? {
        CopyCompletesAsBefore(s0, s, srcDir, destDir, ps, f);
      }
    }
  }

  /** Under a frame, a file blocks the way to a source file's mirror exactly
      when one did before the run. */
  lemma BlockedAsBefore(s0: FsState, s: FsState, srcDir: Path, destDir: Path, ps: seq<Path>, f: Path)
    requires Setting(s0, srcDir, destDir, ps + [f])
    requires Frame(s0, s, srcDir, destDir, ps)
    ensures f in s0.files && IsUnder(f, srcDir)
    ensures var m := MirrorPath(srcDir, destDir, f);
      BlockedByFile(s, Parent(m)) <==> BlockedByFile(s0, Parent(m))
  {
    assert f in ps + [f];
    var m := MirrorPath(srcDir, destDir, f);
    forall q | Changed(s0, s, q) ensures !(q < m) {
      var p :| p in ps && IsUnder(p, srcDir) && Tracked(p) && q == Landing(s0, srcDir, destDir, p);
      assert p in ps + [f];
      NoLandingAboveMirror(s0, srcDir, destDir, p, f);
    }
    forall k | 1 <= k <= |Parent(m)| ensures Parent(m)[..k] in s.files <==> Parent(m)[..k] in s0.files {
      var q := Parent(m)[..k];
      assert q < m;
      assert q in s.files && q !in s0.files ==> Changed(s0, s, q);
    }
  }

  /** Under a frame, once makedirs has completed on the way to a source
      file's mirror, the copy completes exactly when no directory stood at
      its landing before the run. */
  lemma CopyCompletesAsBefore(s0: FsState, s: FsState, srcDir: Path, destDir: Path, ps: seq<Path>, f: Path)
    requires Setting(s0, srcDir, destDir, ps + [f])
    requires Frame(s0, s, srcDir, destDir, ps)
    requires MakeDirsFn(s, Parent(MirrorPath(srcDir, destDir, f))).outcome.Completed?
    ensures var m := MirrorPath(srcDir, destDir, f);
      Copy2Fn(MakeDirsFn(s, Parent(m)).after, f, m).outcome.Completed? <==>
        Landing(s0, srcDir, destDir, f) !in s0.dirs
  {
    assert f in ps + [f];
    var m := MirrorPath(srcDir, destDir, f);
    var s1 := MakeDirsFn(s, Parent(m)).after;
    MakeDirsSpec(s, Parent(m));
    MakeDirsKeeps(s0, s, srcDir, destDir, ps, f);
    TargetStable(s0, s1, srcDir, destDir, ps, f);
    SourceUntouched(s0, s1, srcDir, destDir, ps, f);
    LandingUnderDest(s0, srcDir, destDir, f);
    LandingNotCreated(s0, srcDir, destDir, f);
    DisjointRoots(srcDir, destDir, f);
    var t := Landing(s0, srcDir, destDir, f);
    assert t in s1.dirs <==> t in s0.dirs;
    assert Parent(t) in s1.dirs by {
      if t == m {
        assert Parent(m)[..|Parent(m)|] == Parent(m);
      }
    }
    Copy2Spec(s1, f, m);
  }

  /** A run completes exactly when every Word document it meets can be
      mirrored from the state before the run. */
  lemma {:induction false} CopyAllCompletes(s0: FsState, srcDir: Path, destDir: Path, ps: seq<Path>)
    requires Setting(s0, srcDir, destDir, ps)
    ensures CopyAllFn(s0, srcDir, destDir, ps).outcome.Completed? <==>
      forall p | p in ps && IsUnder(p, srcDir) && Tracked(p) :: CanMirror(s0, srcDir, destDir, p)
  {
    if ps != [] {
      var init := ps[..|ps| - 1];
      var f := ps[|ps| - 1];
      assert ps == init + [f];
      assert Setting(s0, srcDir, destDir, init);
      CopyAllCompletes(s0, srcDir, destDir, init);
      CopyAllKeeps(s0, srcDir, destDir, init);
      var e := CopyAllFn(s0, srcDir, destDir, init);
      if e.outcome.Completed? {
        StepCompletes(s0, e.after, srcDir, destDir, init, f);
      }
    }
  }

  /** The full path the watcher reports and the bare name the walk lists
      classify alike. */
  lemma PathAgreesWithName(p: Path)
    requires p != []
    ensures Classifier.IsWordFile(JoinString(p)) == Classifier.IsWordFile(Basename(p))
  {
    ExtOfLastComponent(JoinString(p));
    LastComponentOfJoinString(p);
  }

  /** A modification event for a file does what the walk does for it. */
  lemma HandleIsStep(s: FsState, srcDir: Path, destDir: Path, p: Path)
    requires IsUnder(p, srcDir)
    ensures HandleFn(s, srcDir, destDir, ChangeEvent(p, false)) == InitialStepFn(s, srcDir, destDir, p)
  {
    PathAgreesWithName(p);
  }

  /** `on_modified` ignores directories and files that are not Word
      documents: nothing changes and nothing is raised. */
  lemma HandleIgnores(s: FsState, srcDir: Path, destDir: Path, ev: ChangeEvent)
    requires ev.isDirectory || IsUnder(ev.srcPath, srcDir)
    requires ev.isDirectory || !Classifier.HasWordSuffix(Basename(ev.srcPath))
    ensures HandleFn(s, srcDir, destDir, ev) == Effect(s, Completed)
  {
    if !ev.isDirectory {
      PathAgreesWithName(ev.srcPath);
      Classifier.NameClassification(Basename(ev.srcPath));
    }
  }

  /** makedirs and then copy2, when the source is not where the copy goes:
      it completes exactly when no file stands where a directory on the way
      to `dst` must be, the source is a file, and no directory stands where
      the copy goes; then the copy holds the source's contents and the
      directories on the way exist. Whatever the outcome, the result is a
      tree, no other file changes and the only new directories are
      ancestors of `dst`. */
  lemma MirrorFileSpec(s: FsState, src: Path, dst: Path)
    requires WellFormed(s) && src != [] && dst != []
    ensures var t := CopyTarget(s, src, dst);
      var e := MirrorFileFn(s, src, dst);
      && WellFormed(e.after)
      && (e.outcome.Completed? <==>
            !BlockedByFile(s, Parent(dst)) && src in s.files && src != t && t !in s.dirs)
      && (e.outcome.Completed? ==>
            t in e.after.files && e.after.files[t] == s.files[src] && Prefixes(Parent(dst)) <= e.after.dirs)
      && e.after.files.Keys <= s.files.Keys + {t}
      && (forall q | q in s.files && q != t :: q in e.after.files && e.after.files[q] == s.files[q])
      && s.dirs <= e.after.dirs
      && (forall d | d in e.after.dirs && d !in s.dirs :: d < dst)
  {
    var made := MakeDirsFn(s, Parent(dst));
    MakeDirsSpec(s, Parent(dst));
    if made.outcome.Completed? {
      CopyAfterMakeDirs(s, src, dst);
    }
  }

  lemma CopyAfterMakeDirs(s: FsState, src: Path, dst: Path)
    requires WellFormed(s) && src != [] && dst != []
    requires !BlockedByFile(s, Parent(dst))
    ensures var t := CopyTarget(s, src, dst);
      var s1 := MakeDirsFn(s, Parent(dst)).after;
      var e := Copy2Fn(s1, src, dst);
      && WellFormed(e.after)
      && e.after.dirs == s1.dirs
      && CopyTarget(s1, src, dst) == t
      && (e.outcome.Completed? <==> src in s.files && src != t && t !in s.dirs)
      && (e.outcome.Completed? ==> e.after.files == s.files[t := s.files[src]])
      && (e.outcome.Raised? ==> e.after.files == s.files)
  {
    var s1 := MakeDirsFn(s, Parent(dst)).after;
    MakeDirsSpec(s, Parent(dst));
    assert dst !in Prefixes(Parent(dst));
    var t := CopyTarget(s, src, dst);
    assert Parent(t) in s1.dirs by {
      if t == dst {
        assert Parent(dst)[..|Parent(dst)|] == Parent(dst);
      }
    }
    Copy2Spec(s1, src, dst);
  }

  /** `on_modified` for a Word document: what MirrorFileSpec states, with the
      mirror as destination. */
  lemma HandleMirrorsTrackedFile(s: FsState, srcDir: Path, destDir: Path, p: Path)
    requires WellFormed(s) && Disjoint(srcDir, destDir) && IsUnder(p, srcDir)
    requires Classifier.HasWordSuffix(Basename(p))
    ensures var m := MirrorPath(srcDir, destDir, p);
      var t := CopyTarget(s, p, m);
      var e := HandleFn(s, srcDir, destDir, ChangeEvent(p, false));
      && e == MirrorFileFn(s, p, m)
      && WellFormed(e.after)
      && (e.outcome.Completed? <==> !BlockedByFile(s, Parent(m)) && p in s.files && t !in s.dirs)
      && (e.outcome.Completed? ==>
            t in e.after.files && e.after.files[t] == s.files[p] && Prefixes(Parent(m)) <= e.after.dirs)
      && e.after.files.Keys <= s.files.Keys + {t}
      && (forall q | q in s.files && q != t :: q in e.after.files && e.after.files[q] == s.files[q])
      && s.dirs <= e.after.dirs
      && (forall d | d in e.after.dirs && d !in s.dirs :: d < m)
  {
    var m := MirrorPath(srcDir, destDir, p);
    HandleTrackedIsMirror(s, srcDir, destDir, p);
    MirrorNotSource(s, srcDir, destDir, p);
    MirrorFileSpec(s, p, m);
  }

  lemma HandleTrackedIsMirror(s: FsState, srcDir: Path, destDir: Path, p: Path)
    requires IsUnder(p, srcDir) && Classifier.HasWordSuffix(Basename(p))
    ensures HandleFn(s, srcDir, destDir, ChangeEvent(p, false)) ==
      MirrorFileFn(s, p, MirrorPath(srcDir, destDir, p))
  {
    PathAgreesWithName(p);
    Classifier.NameClassification(Basename(p));
  }

  /** With disjoint roots, a source file is never where its own copy goes. */
  lemma MirrorNotSource(s: FsState, srcDir: Path, destDir: Path, p: Path)
    requires Disjoint(srcDir, destDir) && IsUnder(p, srcDir)
    ensures p != CopyTarget(s, p, MirrorPath(srcDir, destDir, p))
  {
    var m := MirrorPath(srcDir, destDir, p);
    var t := CopyTarget(s, p, m);
    assert IsUnder(t, destDir) by {
      assert (m + [Basename(p)])[..|destDir|] == m[..|destDir|];
    }
    DisjointRoots(srcDir, destDir, p);
  }

  /** makedirs and then copy2, twice in a row, have the effect of once. */
  lemma MirrorFileIdempotent(s: FsState, src: Path, dst: Path)
    requires WellFormed(s) && src != [] && dst != []
    ensures var e := MirrorFileFn(s, src, dst); MirrorFileFn(e.after, src, dst) == e
  {
    var made := MakeDirsFn(s, Parent(dst));
    MakeDirsSpec(s, Parent(dst));
    MakeDirsIdempotent(s, Parent(dst));
    if made.outcome.Completed? {
      var s1 := made.after;
      var c := Copy2Fn(s1, src, dst);
      Copy2Spec(s1, src, dst);
      if c.outcome.Completed? {
        MakeDirsAtFixpoint(c.after, Parent(dst));
        Copy2Idempotent(s1, src, dst);
      }
    }
  }

  /** Handling the same event twice in a row has the effect of handling it
      once. */
  lemma HandleIdempotent(s: FsState, srcDir: Path, destDir: Path, ev: ChangeEvent)
    requires WellFormed(s)
    requires ev.isDirectory || IsUnder(ev.srcPath, srcDir)
    ensures var e := HandleFn(s, srcDir, destDir, ev);
      HandleFn(e.after, srcDir, destDir, ev) == e
  {
    if !ev.isDirectory && Classifier.IsWordFile(JoinString(ev.srcPath)) {
      MirrorFileIdempotent(s, ev.srcPath, MirrorPath(srcDir, destDir, ev.srcPath));
    }
  }

  /** After `initial_copy` completes, every Word document the walk lists is
      mirrored: the directories on the way to its mirror exist and its
      landing holds its contents. */
  lemma InitialCopyMirrorsTracked(s0: FsState, srcDir: Path, destDir: Path, walk: seq<WalkEntry>)
    requires WellFormed(s0) && Disjoint(srcDir, destDir) && RootsInSource(srcDir, walk)
    requires forall p | p in WalkPaths(walk) :: p in s0.files
    ensures var e := InitialCopyFn(s0, srcDir, destDir, walk);
      e.outcome.Completed? ==>
        forall p | p in WalkPaths(walk) && IsUnder(p, srcDir) && Tracked(p) ::
          && Prefixes(Parent(MirrorPath(srcDir, destDir, p))) <= e.after.dirs
          && Landing(s0, srcDir, destDir, p) in e.after.files
          && e.after.files[Landing(s0, srcDir, destDir, p)] == s0.files[p]
  {
    WalkSetting(s0, srcDir, destDir, walk);
    CopyAllKeeps(s0, srcDir, destDir, WalkPaths(walk));
  }

  /** When the walk lists every file of the source tree, a completed
      `initial_copy` has mirrored every Word document under the source root. */
  lemma InitialCopyMirrorsSourceTree(s0: FsState, srcDir: Path, destDir: Path, walk: seq<WalkEntry>)
    requires WellFormed(s0) && Disjoint(srcDir, destDir) && RootsInSource(srcDir, walk)
    requires forall p | p in WalkPaths(walk) :: p in s0.files
    requires forall f | f in s0.files && IsUnder(f, srcDir) :: f in WalkPaths(walk)
    ensures var e := InitialCopyFn(s0, srcDir, destDir, walk);
      e.outcome.Completed? ==>
        forall f | f in s0.files && IsUnder(f, srcDir) && Tracked(f) ::
          && Prefixes(Parent(MirrorPath(srcDir, destDir, f))) <= e.after.dirs
          && Landing(s0, srcDir, destDir, f) in e.after.files
          && e.after.files[Landing(s0, srcDir, destDir, f)] == s0.files[f]
  {
    InitialCopyMirrorsTracked(s0, srcDir, destDir, walk);
  }

  /** Whatever its outcome, `initial_copy` leaves a tree in which no file
      outside the destination root has changed, no file has disappeared, the
      only files written are the landings of the Word documents the walk
      lists, and every new directory is an ancestor of the destination root
      or the mirror of a source directory. */
  lemma InitialCopyFrame(s0: FsState, srcDir: Path, destDir: Path, walk: seq<WalkEntry>)
    requires WellFormed(s0) && Disjoint(srcDir, destDir) && RootsInSource(srcDir, walk)
    requires forall p | p in WalkPaths(walk) :: p in s0.files
    ensures var e := InitialCopyFn(s0, srcDir, destDir, walk);
      && Frame(s0, e.after, srcDir, destDir, WalkPaths(walk))
      && (forall q | q in s0.files && !IsUnder(q, destDir) :: q in e.after.files && e.after.files[q] == s0.files[q])
  {
    WalkSetting(s0, srcDir, destDir, walk);
    CopyAllKeeps(s0, srcDir, destDir, WalkPaths(walk));
    var e := InitialCopyFn(s0, srcDir, destDir, walk);
    forall q | q in s0.files && !IsUnder(q, destDir) ensures q in e.after.files && e.after.files[q] == s0.files[q] {
      assert !Changed(s0, e.after, q);
    }
  }

  /** Running `initial_copy` again, as pressing Start again does, changes
      nothing and ends the same way: the walk still lists the same files with
      the same contents, and the second run leaves the state and the outcome
      of the first, whether that completed or raised. */
  lemma InitialCopyIdempotent(s0: FsState, srcDir: Path, destDir: Path, walk: seq<WalkEntry>)
    requires WellFormed(s0) && Disjoint(srcDir, destDir) && RootsInSource(srcDir, walk)
    requires forall p | p in WalkPaths(walk) :: p in s0.files
    ensures var e := InitialCopyFn(s0, srcDir, destDir, walk);
      && (forall p | p in WalkPaths(walk) :: p in e.after.files && e.after.files[p] == s0.files[p])
      && InitialCopyFn(e.after, srcDir, destDir, walk) == e
  {
    var ps := WalkPaths(walk);
    WalkSetting(s0, srcDir, destDir, walk);
    CopyAllKeeps(s0, srcDir, destDir, ps);
    var e := InitialCopyFn(s0, srcDir, destDir, walk);
    forall p | p in ps ensures p in e.after.files && e.after.files[p] == s0.files[p] {
      SourceUntouched(s0, e.after, srcDir, destDir, ps, p);
    }
    CopyAllRerun(s0, srcDir, destDir, ps);
  }

  /** Handling the files `ps` again on the state a first pass left gives
      that state and outcome again. */
  lemma {:induction false} CopyAllRerun(s0: FsState, srcDir: Path, destDir: Path, ps: seq<Path>)
    requires Setting(s0, srcDir, destDir, ps)
    ensures var e := CopyAllFn(s0, srcDir, destDir, ps);
      CopyAllFn(e.after, srcDir, destDir, ps) == e
  {
    if ps != [] {
      var init := ps[..|ps| - 1];
      var f := ps[|ps| - 1];
      assert ps == init + [f];
      assert Setting(s0, srcDir, destDir, init);
      CopyAllRerun(s0, srcDir, destDir, init);
      CopyAllKeeps(s0, srcDir, destDir, init);
      var e1 := CopyAllFn(s0, srcDir, destDir, init);
      if e1.outcome.Completed? {
        RerunAfterStep(s0, e1.after, srcDir, destDir, init, f);
      }
    }
  }

  /** After a pass over `init` completed, the step for `f`, whatever its
      outcome, leaves `init` at its fixpoint and is itself repeated
      identically. */
  lemma RerunAfterStep(s0: FsState, s: FsState, srcDir: Path, destDir: Path, init: seq<Path>, f: Path)
    requires Setting(s0, srcDir, destDir, init + [f])
    requires Frame(s0, s, srcDir, destDir, init) && Done(s0, s, srcDir, destDir, init)
    ensures InSource(srcDir, init)
    ensures var e := InitialStepFn(s, srcDir, destDir, f);
      && CopyAllFn(e.after, srcDir, destDir, init) == Effect(e.after, Completed)
      && InitialStepFn(e.after, srcDir, destDir, f) == e
  {
    StepLeavesFixpoint(s0, s, srcDir, destDir, init, f);
    if Tracked(f) {
      MirrorFileIdempotent(s, f, MirrorPath(srcDir, destDir, f));
    }
  }

  lemma StepLeavesFixpoint(s0: FsState, s: FsState, srcDir: Path, destDir: Path, init: seq<Path>, f: Path)
    requires Setting(s0, srcDir, destDir, init + [f])
    requires Frame(s0, s, srcDir, destDir, init) && Done(s0, s, srcDir, destDir, init)
    ensures InSource(srcDir, init)
    ensures var e := InitialStepFn(s, srcDir, destDir, f);
      CopyAllFn(e.after, srcDir, destDir, init) == Effect(e.after, Completed)
  {
    var ps := init + [f];
    assert forall p | p in init :: p in ps;
    assert Setting(s0, srcDir, destDir, init);
    StepKeeps(s0, s, srcDir, destDir, init, f);
    var e := InitialStepFn(s, srcDir, destDir, f);
    if e.outcome.Completed? {
      CopyAllAtFixpoint(s0, e.after, srcDir, destDir, ps, ps, init);
    } else {
      DoneWithMoreDirs(s0, s, e.after, srcDir, destDir, init);
      CopyAllAtFixpoint(s0, e.after, srcDir, destDir, ps, init, init);
    }
  }

  /** Adding directories keeps what is mirrored. */
  lemma DoneWithMoreDirs(s0: FsState, s: FsState, s2: FsState, srcDir: Path, destDir: Path, ps: seq<Path>)
    requires Done(s0, s, srcDir, destDir, ps) && s.dirs <= s2.dirs && s2.files == s.files
    ensures Done(s0, s2, srcDir, destDir, ps)
  {
  }

  /** After `initial_copy` completed, a modification event for a file the
      walk listed, whose contents have not changed since, changes nothing. */
  lemma InitialCopyThenEventIsNoOp(s0: FsState, srcDir: Path, destDir: Path, walk: seq<WalkEntry>, p: Path)
    requires WellFormed(s0) && Disjoint(srcDir, destDir) && RootsInSource(srcDir, walk)
    requires forall q | q in WalkPaths(walk) :: q in s0.files
    requires p in WalkPaths(walk) && IsUnder(p, srcDir)
    ensures var e := InitialCopyFn(s0, srcDir, destDir, walk);
      e.outcome.Completed? ==>
        HandleFn(e.after, srcDir, destDir, ChangeEvent(p, false)) == Effect(e.after, Completed)
  {
    var ps := WalkPaths(walk);
    WalkSetting(s0, srcDir, destDir, walk);
    CopyAllKeeps(s0, srcDir, destDir, ps);
    var e := InitialCopyFn(s0, srcDir, destDir, walk);
    if e.outcome.Completed? {
      HandleIsStep(e.after, srcDir, destDir, p);
      StepAtFixpoint(s0, e.after, srcDir, destDir, ps, ps, p);
    }
  }

  /** `initial_copy` completes exactly when every Word document the walk
      lists can be mirrored: one document that cannot ends the whole run
      with an exception. */
  lemma InitialCopyCompletes(s0: FsState, srcDir: Path, destDir: Path, walk: seq<WalkEntry>)
    requires WellFormed(s0) && Disjoint(srcDir, destDir) && RootsInSource(srcDir, walk)
    requires forall p | p in WalkPaths(walk) :: p in s0.files
    ensures InitialCopyFn(s0, srcDir, destDir, walk).outcome.Completed? <==>
      forall p | p in WalkPaths(walk) && IsUnder(p, srcDir) && Tracked(p) ::
        !BlockedByFile(s0, Parent(MirrorPath(srcDir, destDir, p))) && Landing(s0, srcDir, destDir, p) !in s0.dirs
  {
    WalkSetting(s0, srcDir, destDir, walk);
    CopyAllCompletes(s0, srcDir, destDir, WalkPaths(walk));
  }

  lemma WalkSetting(s0: FsState, srcDir: Path, destDir: Path, walk: seq<WalkEntry>)
    requires WellFormed(s0) && Disjoint(srcDir, destDir) && RootsInSource(srcDir, walk)
    requires forall p | p in WalkPaths(walk) :: p in s0.files
    ensures Setting(s0, srcDir, destDir, WalkPaths(walk))
    ensures InitialCopyFn(s0, srcDir, destDir, walk) == CopyAllFn(s0, srcDir, destDir, WalkPaths(walk))
  {
    WalkPathsInSource(srcDir, walk);
  }
}
