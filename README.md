# Word-document mirror of backup-disc.py

backup-disc.py keeps a backup of the Word documents in one directory
tree (the source root) inside another (the destination root).

- At start-up, `initial_copy` walks the source tree. It copies every file whose
  extension, lower-cased, is `.doc` or `.docx` to the same relative path under
  the destination root.
- After that, a watchdog `FileChangeHandler` receives modification events.
  `on_modified` copies each modified Word document again.
- For every copy the program first creates the missing directories with
  `os.makedirs(..., exist_ok=True)`, then calls `shutil.copy2`.

This project models that core in Dafny as six modules:

- `PathStrings`: the parts of Windows `os.path` that the classifier uses, on
  strings: `splitext`, the final component, and `str.lower`.
- `Classifier`: `WORD_EXTENSIONS` and `is_word_file`. Lemmas describe which
  names are and are not tracked.
- `Paths`: paths as lists of components, `relpath`/`join`, the mirror mapping
  from source path to destination path, and how a list turns back into the
  path string the watcher reports.
- `Fs`: the file system as a tree of directories and files with contents.
  - A `FileSystem` class holds the two fields as mutable state.
  - Its methods `MakeDirs` and `Copy2` model the two library calls, including
    the exceptions they raise.
  - The functions `MakeDirsFn` and `Copy2Fn` state what the calls leave behind.
  - Lemmas cover what each call preserves and that repeating a call changes
    nothing.
- `Backup`: the handler class and `initial_copy`.
  - `HandleFn`, `InitialStepFn` and `CopyAllFn` say what the state and the
    outcome must be.
  - `FileChangeHandler.OnModified` and `InitialCopy` change a `FileSystem`
    in place and are proved against those functions. `InitialCopy` does this
    through loop invariants over the walk.
- `BackupProofs`: the guarantees of the two ways of copying.
  - A tracked file lands with its contents.
  - Nothing else changes.
  - Running again changes nothing.
  - The exact conditions under which a run completes or raises.

Platform and library choices:

- The program logs to `C:\Logs`, so paths follow Windows `ntpath`: `\` and
  `/` both separate components and `join` inserts `\`.
- A path is a normalised list of names. The root is the empty list.
- A directory `d` is written into as `d\basename(src)`. This is what `copy2`
  does when its destination is an existing directory.

External inputs become parameters:

- The directory listing `os.walk(src_dir)` is a sequence of `WalkEntry`
  values, in the order the operating system yields them.
- A watchdog event is a `ChangeEvent`.
- The file system's state is a `FileSystem` object, or an `FsState` value in
  the specification functions.

Errors are modelled as the program has them:

- `on_modified` and `initial_copy` catch no exception. An exception from
  `makedirs` or `copy2` ends the call, and `initial_copy` stops at the first
  one.
- The model returns `Raised(error)` together with the state reached at that
  moment.
- A more resilient design would log a failed copy, skip it and go on with
  the walk. The code does not do this, and the model follows the code. `BackupProofs.InitialCopyCompletes` states the consequence:
  one Word document that cannot be mirrored makes the whole start-up copy
  raise.

## Model

| member | source | states |
|---|---|---|
| `PathStrings.SplitExt` | backup-disc.py:54 | `os.path.splitext`: stem and extension concatenate back to the input; a non-empty extension is one dot followed by no further dot or separator |
| `PathStrings.LastComponent` | backup-disc.py:36 | the final component is the separator-free suffix that follows the last separator, or the whole path when it has none |
| `PathStrings.ExtOfLastComponent` | backup-disc.py:36 | `splitext` of a full path finds the extension of its final component |
| `PathStrings.Lower` | backup-disc.py:54 | `str.lower` keeps the length, leaves no upper-case letter and changes no other character |
| `PathStrings.ExtOfLower` | backup-disc.py:54 | lower-casing and then splitting gives the lower-cased extension |
| `PathStrings.LowerIdempotent` | backup-disc.py:54 | lower-casing twice is lower-casing once |
| `Classifier.IsWordFile` | backup-disc.py:53-54 | `is_word_file`: a tracked name ends, ignoring case, in one of `WORD_EXTENSIONS` |
| `Classifier.WordExtensionsWellFormed` | backup-disc.py:12 | every entry of `WORD_EXTENSIONS` is a dot followed only by characters that are neither dots nor separators |
| `Classifier.ExtOfName` | backup-disc.py:53-54 | for a bare name, the extension starts at the last dot, unless only dots come before it |
| `Classifier.NameClassification` | backup-disc.py:53-54 | a bare name is a Word file if and only if it ends, ignoring case, in `.doc` or `.docx` after a character other than a dot |
| `Classifier.IsWordFileIffWordSuffix` | backup-disc.py:53-54 | for any path: tracked if and only if its final component ends in a Word extension (ignoring case) after a non-dot character; only the last suffix counts |
| `Classifier.IsWordFileIgnoresCase` | backup-disc.py:53-54 | classifying the lower-cased name gives the same answer |
| `Classifier.WordSuffixTracked` | backup-disc.py:53-54 | a name ending in a Word extension in any letter case, after a stem that is not all dots, is tracked (`Report.DOCX`, `a.txt.docx`) |
| `Classifier.NoDotUntracked` | backup-disc.py:53-54 | a name without a dot is not tracked (`noext`) |
| `Classifier.DotsBeforeSuffixUntracked` | backup-disc.py:53-54 | a name of leading dots and a dot-free tail is not tracked (`.docx`, `..docx`) |
| `Classifier.OtherSuffixUntracked` | backup-disc.py:53-54 | a name whose last suffix is not a Word extension is not tracked, whatever comes earlier (`a.docx.txt`, `notes.txt`) |
| `Classifier.ReportDocxTracked` | backup-disc.py:53-54 | `Report.DOCX` is tracked: the extension test ignores case |
| `Classifier.InnerTxtIgnored` | backup-disc.py:53-54 | `a.txt.docx` is tracked: only the last suffix counts |
| `Classifier.InnerDocxIgnored` | backup-disc.py:53-54 | `a.docx.txt` is not tracked: an earlier `.docx` does not count |
| `Classifier.NotesTxtUntracked` | backup-disc.py:53-54 | `notes.txt` is not tracked |
| `Classifier.NoExtUntracked` | backup-disc.py:53-54 | `noext` is not tracked |
| `Classifier.LeadingDotUntracked` | backup-disc.py:53-54 | `.docx` is not tracked: a leading dot starts no extension |
| `Paths.RelPath` | backup-disc.py:27 | `relpath` of a path inside the root is the non-empty rest that the root extends to it |
| `Paths.Parent` | backup-disc.py:30 | `dirname`: the path lies directly inside its parent |
| `Paths.Basename` | backup-disc.py:30-31 | `basename`: the parent followed by the basename is the path again |
| `Paths.Join` | backup-disc.py:27 | joining a non-empty relative path gives a path inside the directory, and `relpath` against that directory gives the relative path back |
| `Paths.MirrorPath` | backup-disc.py:44 | the destination of a source file lies inside the destination root, at the same depth, with the same basename |
| `Paths.PathIntegrity` | backup-disc.py:27 | the file at `srcDir/r` goes to `destDir/r` for every relative path `r` |
| `Paths.MirrorRelPath` | backup-disc.py:44 | the destination taken relative to the destination root is the source taken relative to the source root |
| `Paths.MirrorPrefix` | backup-disc.py:44 | the mapping is injective, and one destination contains another exactly when the sources do |
| `Paths.LastComponentOfJoinString` | backup-disc.py:25 | the path string a watcher reports ends in the file's basename |
| `Fs.MakeDirsFn` | backup-disc.py:30 | `makedirs` never touches files and only adds directories; it raises exactly when a file stands on the path, and then changes nothing; on completion the path is a directory |
| `Fs.CopyTarget` | backup-disc.py:31 | `copy2` writes to its destination, or, exactly when that is a directory, to the source's basename inside it |
| `Fs.Copy2Fn` | backup-disc.py:31 | `copy2` never changes directories or removes files; on an exception nothing changes; on completion the source was a file and the target holds its contents |
| `Fs.AncestorIsDir` | backup-disc.py:30 | in a tree, every proper ancestor of an entry is a directory |
| `Fs.MakeDirsSpec` | backup-disc.py:30 | `makedirs(exist_ok=True)` raises exactly when a file blocks the path, and then changes nothing; otherwise the path and its ancestors are directories; no file changes; no other directory appears |
| `Fs.MakeDirsIdempotent` | backup-disc.py:30 | a second `makedirs` of the same path changes nothing and ends the same way |
| `Fs.MakeDirsAtFixpoint` | backup-disc.py:47 | `makedirs` of an existing directory completes and changes nothing |
| `Fs.Copy2Spec` | backup-disc.py:31 | `copy2` completes exactly when the source is a file other than the target, and the target is no directory but sits in one; then only the target changes and it holds the source's contents; on an exception nothing changes |
| `Fs.DirectoryOntoItself` | backup-disc.py:31 | copying a directory into its own parent raises `SameFileError`, as `copyfile`'s same-file test does for directories, and changes nothing |
| `Fs.Copy2Idempotent` | backup-disc.py:31 | repeating a `copy2` that completed changes nothing |
| `Fs.FileSystem.MakeDirs` | backup-disc.py:30 | the in-place `makedirs` leaves the state and outcome `MakeDirsFn` prescribes |
| `Fs.FileSystem.Copy2` | backup-disc.py:31 | the in-place `copy2` makes the library's checks in order and leaves what `Copy2Fn` prescribes |
| `Backup.EntryPaths` | backup-disc.py:43 | for each file name of a walk entry, in order, a path whose `dirname` is the entry's directory and whose `basename` is that name |
| `Backup.WalkPathsListsEveryFile` | backup-disc.py:40-43 | every file every walk entry names is among the files `initial_copy` visits |
| `Backup.MirrorFileFn` | backup-disc.py:30-31 | `makedirs` then `copy2` only add directories and files; on an exception no file changes; on completion the source was a file, the destination's directory exists and the copy holds the source's contents |
| `Backup.HandleFn` | backup-disc.py:24-31 | `on_modified` has an effect only for a file event whose path classifies as a Word document; when it then completes, the mirror's directory exists and the copy holds the source's contents |
| `Backup.InitialStepFn` | backup-disc.py:42-48 | one file of the walk has an effect only when its bare name classifies as a Word document; when it then completes, the mirror's directory exists and the copy holds the file's contents |
| `Backup.CopyAllFn` | backup-disc.py:40-48 | handling a list of files, however it ends, removes no file and no directory |
| `Backup.InitialCopyFn` | backup-disc.py:39-48 | `initial_copy`, however it ends, removes no file and no directory |
| `Backup.WalkPathsInSource` | backup-disc.py:40-43 | a walk of directories inside the source root lists only files inside it |
| `Backup.WalkPathsAppend` | backup-disc.py:40-41 | the files of a walk are the files of its entries, one entry after another |
| `Backup.CopyAllAppend` | backup-disc.py:40-48 | copying `a + b` is copying `a` and then `b`, unless `a` raised |
| `Backup.CopyAllSticky` | backup-disc.py:40-48 | after an exception, no further file is handled |
| `Backup.MirrorFile` | backup-disc.py:30-31 | `makedirs` of the parent and then `copy2`; the copy is skipped when `makedirs` raises |
| `Backup.FileChangeHandler.constructor` | backup-disc.py:20-22 | the handler keeps the two roots |
| `Backup.FileChangeHandler.IsWordFile` | backup-disc.py:35-36 | the handler's `is_word_file` on a full path equals the module's `is_word_file` on its final component, which equals having a Word suffix there |
| `Backup.FileChangeHandler.OnModified` | backup-disc.py:24-31 | `on_modified` changes the file system as `HandleFn` prescribes: directory events and untracked paths do nothing, tracked files are mirrored |
| `Backup.CopyEntry` | backup-disc.py:41-48 | the inner loop over one directory's files leaves what `CopyAllFn` prescribes for those files |
| `Backup.InitialCopy` | backup-disc.py:39-48 | the nested loops over the walk leave what `InitialCopyFn` prescribes, stopping at the first exception |
| `BackupProofs.MirrorAncestor` | backup-disc.py:47 | the directories created on the way to a mirror are ancestors of the destination root or mirrors of source directories |
| `BackupProofs.LandingNotCreated` | backup-disc.py:47-48 | no such directory is ever where a copy goes |
| `BackupProofs.LandingInjective` | backup-disc.py:44-48 | distinct source files land in distinct places |
| `BackupProofs.NoLandingAboveMirror` | backup-disc.py:44-48 | nothing written for one source file lies on the way to another's mirror |
| `BackupProofs.StepKeeps` | backup-disc.py:42-48 | one file of the walk keeps the frame, and when the step completes it keeps every document already mirrored |
| `BackupProofs.CopyAllKeeps` | backup-disc.py:40-48 | any prefix of the walk keeps the frame, and when it completes every Word document in it is mirrored |
| `BackupProofs.StepAtFixpoint` | backup-disc.py:42-48 | once everything is mirrored, handling a file again completes and changes nothing |
| `BackupProofs.StepCompletes` | backup-disc.py:42-48 | whether one file's step completes is decided by the state before the start-up copy |
| `BackupProofs.CopyAllCompletes` | backup-disc.py:40-48 | a list of files is copied without exception exactly when each Word document in it can be mirrored |
| `BackupProofs.PathAgreesWithName` | backup-disc.py:36 | the handler's classification of the full path equals `initial_copy`'s classification of the bare name |
| `BackupProofs.HandleIsStep` | backup-disc.py:24-31 | a modification event for a file does exactly what the walk does for it |
| `BackupProofs.HandleIgnores` | backup-disc.py:25 | directory events and files without a Word suffix change nothing and raise nothing |
| `BackupProofs.MirrorFileSpec` | backup-disc.py:30-31 | `makedirs` then `copy2`: completes exactly when no file blocks the destination's directory, the source is a file other than the target and no directory is at the target; then the target holds the source's contents, no other file changes, and new directories are only ancestors of the destination |
| `BackupProofs.MirrorNotSource` | backup-disc.py:27 | with disjoint roots, no source file is where its own copy goes |
| `BackupProofs.HandleMirrorsTrackedFile` | backup-disc.py:24-31 | `on_modified` for a Word document: it completes exactly when no file blocks the mirror's directories, the source is a file and no directory is at the target; then the target holds the contents and its directories exist; nothing else changes |
| `BackupProofs.MirrorFileIdempotent` | backup-disc.py:30-31 | making the directories and copying twice in a row has the effect of doing it once |
| `BackupProofs.HandleIdempotent` | backup-disc.py:24-31 | replaying an event right after handling it leaves the same state and ends the same way |
| `BackupProofs.InitialCopyMirrorsTracked` | backup-disc.py:39-48 | once `initial_copy` completes, every Word document the walk lists is at its landing with its contents, and its directories exist |
| `BackupProofs.InitialCopyMirrorsSourceTree` | backup-disc.py:39-48 | when the walk lists every file under the source root, a completed `initial_copy` has mirrored every Word document there |
| `BackupProofs.InitialCopyFrame` | backup-disc.py:39-48 | whatever the outcome, no file outside the destination root changes, no file disappears, only the landings of tracked files are written (never an untracked file) and only allowed directories appear |
| `BackupProofs.InitialCopyIdempotent` | backup-disc.py:39-48 | after `initial_copy`, whatever its outcome, the source is unchanged, and a second run leaves the same state and ends the same way, raising the same exception if the first raised |
| `BackupProofs.CopyAllRerun` | backup-disc.py:40-48 | handling the same files again on the state a first pass left reproduces that state and outcome |
| `BackupProofs.InitialCopyThenEventIsNoOp` | backup-disc.py:24-48 | after a completed `initial_copy`, an event for an unmodified listed file changes nothing |
| `BackupProofs.InitialCopyCompletes` | backup-disc.py:39-48 | `initial_copy` completes exactly when no Word document it lists is blocked by a file on the way to its mirror or by a directory at its landing |

## Left out

- The tkinter window, the directory pickers, `start_monitoring`,
  `on_closing`, `monitor_directory`, the watchdog `Observer`, its thread
  and the `monitoring_active` flag. They are the program's lifecycle and user
  interface, not its copying logic.
- `print` and `loguru` logging: output only, with no effect on the file system.
- `copy2` metadata (modification time, permission bits). Only contents are
  modelled.
- `str.lower` is modelled for ASCII letters only. Other Unicode case mappings
  are not modelled.
- Drive letters, UNC prefixes and the case-insensitive matching of Windows
  file names. Paths are normalised component lists, and two names that differ
  only in case are distinct here.
- Exceptions other than the modelled five, such as permission errors, a full
  disk or a path that is too long. Either call could raise them at any point.
- Symbolic links, and files that change while a copy is in progress.
- Events arriving concurrently, and the interleaving of the watcher thread with
  `initial_copy`.
- `os.walk` itself is a parameter. Its order, its laziness and its listing of
  the sub-directory names are not modelled.
- `Backup.FileChangeHandler.OnModified`: for file events it requires the path
  to lie inside the source root. Watchdog reports only such paths, and outside
  the root `relpath` would produce `..` components.
- `Backup.InitialCopy`: it requires every walk entry to lie inside the source
  root, as `os.walk(src_dir)` guarantees.
- `BackupProofs.InitialCopyMirrorsTracked`: proved only for disjoint source and
  destination roots whose walk lists files of the source tree. Nested roots are
  not covered; they would let the walk see its own copies, and equal roots make
  every Word document its own target (`SameFileError`). The program does not
  check that the roots are disjoint.
- `BackupProofs.StepKeeps`: proved under the same assumptions.
- `BackupProofs.CopyAllKeeps`: proved under the same assumptions.
- `BackupProofs.StepAtFixpoint`: proved under the same assumptions.
- `BackupProofs.StepCompletes`: proved under the same assumptions.
- `BackupProofs.CopyAllCompletes`: proved under the same assumptions. With
  equal roots its condition can hold while the run raises `SameFileError`.
- `BackupProofs.InitialCopyFrame`: proved under the same assumptions.
- `BackupProofs.InitialCopyIdempotent`: proved under the same assumptions.
- `BackupProofs.InitialCopyCompletes`: proved under the same assumptions.
- `BackupProofs.InitialCopyThenEventIsNoOp`: proved under the same assumptions.
- `BackupProofs.InitialCopyMirrorsSourceTree`: proved under the same
  assumptions, for a walk that lists every file under the source root.
- `BackupProofs.CopyAllRerun`: proved under the same assumptions.
- `Classifier.IsWordFile`: its own contract gives one direction, that a
  tracked name ends in a Word extension. The converse needs a stem that is not
  all dots, and `Classifier.NameClassification` states both directions.
- `Fs.MakeDirsFn` and `Fs.Copy2Fn`: their own contracts hold on any state. The
  full behaviour on a tree, both directions of completion included, is stated
  by `Fs.MakeDirsSpec` and `Fs.Copy2Spec`.
- `BackupProofs.HandleMirrorsTrackedFile`: proved only for disjoint roots.
  Other roots allow the source to be its own target (`SameFileError`).
