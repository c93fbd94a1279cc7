# folder_sync in Dafny

A verified model of `sync_folders` in `Folder_sync.py`: one-way mirroring of a
source directory tree onto a replica tree. One run has two passes. The
propagate pass creates the replica root if it is missing. It then walks the
source top-down, creates every missing directory, and copies every file the
replica lacks or holds only in a strictly older version (by modification time).
The prune pass then walks the replica top-down. It deletes every file the
source lacks, and every directory the source lacks together with everything
below it.

## How the model is built

- `FileTree.dfy`: a tree is a `map<Path, Entry<T>>`. The key is a path relative
  to the root, a sequence of names; the root is `[]`. An `Entry` is `Dir` or
  `File(mtime, content)`. The empty map is a tree whose root does not exist.
  `WellFormed` says every non-root entry sits in a directory.
- `FileSystem.dfy`: the class `Folder` holds one tree in its `tree` field. Its
  methods are the four library calls the synchroniser uses: `os.makedirs`,
  `shutil.copy2`, `os.remove` and `shutil.rmtree`. The `requires` of
  `MakeDirs`, `Remove` and `RmTree` are what the library call needs in order
  not to raise. `Copy2` needs the receiving directory to exist, or the call
  raises. It also excludes a directory at the destination path. The real call
  does not raise there but copies into that directory; this is the
  file-against-directory case that `NoConflict` leaves out.
- `Reconcile.dfy`: what a run makes of the replica, as functions:
  `Propagated` (first pass), `Pruned` (second pass) and `Mirror` (both).
  The change sets a run must log are `MissingDirs`, `StaleFiles`, `ExtraDirs`
  and `ExtraFiles`. The lemmas state convergence, the copy rule, subtree
  deletion and idempotence.
- `FolderSync.dfy`: `SyncFolders` mutates the replica `Folder` with two loops,
  `PropagatePass` and `PrunePass`. It returns the log of actions taken, one per
  `logging.info` line of the source. Each loop's invariant is a named
  predicate, kept by one small lemma per kind of step.

`os.walk` lists directory entries in an order the filesystem chooses. The
model therefore lets each loop pick any remaining path whose parent it has
already handled (`p :| p in todo && Parent(p) !in todo`). The proofs hold for
every top-down order, and `os.walk`'s depth-first order is one of them. The
prune walk is over the replica as the first pass left it. A path whose
ancestor directory was already removed is skipped, just as `os.walk` does not
descend into a directory deleted under it.

Source and replica are two distinct `Folder` objects, and `SyncFolders`
`modifies` only the replica. So the contract itself shows that the source is
never written.

Some behaviours of the code worth stating plainly:

- Freshness: a replica file as new as or newer than the source's is kept as
  it is, content and time. `CopyRule` states that the replica's time is at
  least the source's, and equal to it when a copy happened.
- Errors: `sync_folders` catches nothing. A failing library call ends the run,
  and `main`'s loop and the process with it. The model states each library
  call's failure conditions as its precondition, and `SyncFolders` proves that
  it never violates them.
- A missing source root: `main` refuses to start when the source is missing,
  but `sync_folders` itself accepts it. `os.walk` then yields nothing, and the
  prune pass empties the replica except for its root. The model allows an
  empty source tree and gives that outcome.

## Model

| member | source | states |
|---|---|---|
| FolderSync.SyncFolders | Folder_sync.py:15-58 | One run: the replica ends as `Mirror(source, old replica)`, well formed and conflict-free; the source is unchanged. The log creates the root first when it was missing. It names exactly the missing directories, the missing or stale files, and the top of every file or subtree the source lacks. It is empty exactly when the replica already was a mirror. |
| FolderSync.PropagatePass | Folder_sync.py:22-39 | The first pass leaves `Propagated(source, replica)`. It logs exactly `MissingDirs` as created and `StaleFiles` as copied, and nothing else. |
| FolderSync.PrunePass | Folder_sync.py:42-58 | The second pass leaves `Pruned(source, replica)`. It logs exactly `ExtraDirs` as removed folders and `ExtraFiles` as removed files, and keeps the tree well formed. |
| FolderSync.SyncTwice | Folder_sync.py:82-85 | Two consecutive runs against an unchanged source: the second run logs nothing. |
| FolderSync.RunLog | Folder_sync.py:17-58 | The log of root creation, then pass one, then pass two, names per kind exactly the changes due, with root creation first. It is empty iff the replica was already a mirror. |
| FolderSync.QuietLog | Folder_sync.py:15-58 | A log that names exactly the changes due is empty iff the replica equals its mirror. |
| FolderSync.EmptyLog | Folder_sync.py:19-58 | A log is empty iff it records no path of any kind. |
| FolderSync.PropagateReady | Folder_sync.py:22-27 | When the walk reaches a source path, its parent is already a directory of the replica, and the replica's entry there is untouched and of the same kind. |
| FolderSync.PropagateDirCreated | Folder_sync.py:28-30 | Creating a missing source directory keeps the first pass's invariant. |
| FolderSync.PropagateFileCopied | Folder_sync.py:36-39 | Copying a missing or strictly older file keeps the first pass's invariant. |
| FolderSync.PropagateTreeStep | Folder_sync.py:26-38 | Storing at p what the finished pass leaves there keeps the tree part of the invariant. |
| FolderSync.PropagateLogStep | Folder_sync.py:30-39 | Logging the creation or copy at p keeps the log part of the invariant. |
| FolderSync.PropagateUnchanged | Folder_sync.py:28-37 | Passing over an existing directory, or over a file whose replica copy is as new or newer, keeps the invariant with no change. |
| FolderSync.PropagateDone | Folder_sync.py:22-39 | When the walk is over, the tree is `Propagated(source, replica)`. |
| FolderSync.PruneReady | Folder_sync.py:42-49 | A replica path the walk reaches while it still exists, and that the source lacks, is the top of a subtree to remove. Every such top is still present when reached. |
| FolderSync.PruneSkipped | Folder_sync.py:46-56 | Passing a path the source holds, or one already removed with its ancestor, keeps the invariant. |
| FolderSync.PruneDirRemoved | Folder_sync.py:49-51 | Removing a directory the source lacks, with its subtree, keeps the second pass's invariant. |
| FolderSync.PruneFileRemoved | Folder_sync.py:56-58 | Removing a file the source lacks keeps the second pass's invariant. |
| FolderSync.PruneDone | Folder_sync.py:42-58 | When the walk is over, the tree is `Pruned(source, replica)`. |
| FolderSync.SubtreeOutsideSource | Folder_sync.py:49-50 | Nothing below a path the source lacks is in the source, and no deeper path's parent is in it. So `rmtree` never deletes a path the source holds. |
| FileSystem.Folder.MakeDirs | Folder_sync.py:28-29 | `os.makedirs(p)` adds p and every missing directory above it. It needs p absent and no file on the way. |
| FileSystem.Folder.Copy2 | Folder_sync.py:38 | `shutil.copy2` makes the replica entry at p the source's entry, content and modification time alike. It needs the receiving directory to exist (else the call raises) and no directory at p (the case `NoConflict` leaves out). |
| FileSystem.Folder.Remove | Folder_sync.py:56-57 | `os.remove` deletes exactly that one file. |
| FileSystem.Folder.RmTree | Folder_sync.py:49-50 | `shutil.rmtree` deletes the directory and every path below it, and nothing else. |
| Reconcile.NeedsCopy | Folder_sync.py:37 | The copy condition: the replica has nothing at the path or a strictly older file. A replica file as new as or newer than the source's is never copied over. |
| Reconcile.Propagated | Folder_sync.py:17-39 | The replica after the first pass: its paths are the old replica's, the source's and the root; a replica path the source lacks keeps its entry. |
| Reconcile.Pruned | Folder_sync.py:42-58 | The replica after the second pass: its paths are those of the tree it starts from that are the root or in the source, each with its entry unchanged. |
| Reconcile.MissingDirs | Folder_sync.py:26-30 | The directories the first pass creates and logs: each is a source directory the replica lacks. |
| Reconcile.StaleFiles | Folder_sync.py:33-39 | The files the first pass copies and logs: each is a source file the replica lacks or holds only as a strictly older file. |
| Reconcile.ExtraDirs | Folder_sync.py:46-51 | The directories the second pass removes and logs: each is a non-root replica directory the source lacks. |
| Reconcile.ExtraFiles | Folder_sync.py:53-58 | The files the second pass removes and logs: each is a non-root replica file the source lacks. |
| Reconcile.Mirror | Folder_sync.py:15-58 | Convergence: after a run, the replica's paths are the source's paths plus the root. |
| Reconcile.MirrorWellFormed | Folder_sync.py:17-30 | After a run the root is a directory, the tree is well formed, and each source path has the same kind in the replica. |
| Reconcile.CopyRule | Folder_sync.py:36-38 | Every source file is a file of the replica after a run, at least as new as the source's. It is the source's entry when the replica had none or a strictly older one, and the replica's own entry otherwise. |
| Reconcile.SubtreeRemoved | Folder_sync.py:46-51 | A replica path the source lacks is gone after a run, and so is every path below it. |
| Reconcile.InSyncIffQuiet | Folder_sync.py:15-58 | The replica equals what a run makes of it iff a run has nothing to create, copy or remove (both directions). |
| Reconcile.SecondRunQuiet | Folder_sync.py:15-58 | Idempotence: after one run, a second run has nothing to do and leaves the replica unchanged. |
| Reconcile.ExtraAbove | Folder_sync.py:46-56 | At or above any replica path the source lacks lies a topmost such path (a prefix of it), one the prune pass removes itself. |
| Reconcile.PropagatedKeepsExtras | Folder_sync.py:22-39 | The first pass leaves every replica path the source lacks in place with its entry unchanged, so the topmost such directories and files are the same before and after it. |
| Reconcile.RootCreationInvisible | Folder_sync.py:17-18 | Creating a missing replica root changes neither the first pass's result nor what it creates or copies. |
| FileTree.ReadyExists | Folder_sync.py:22 | A top-down walk with paths left can always take a path whose parent it has already handled. |
| FileTree.ShortestExists | Folder_sync.py:22 | A non-empty set of paths has a shortest member. |
| FileTree.NoShorterThan | Folder_sync.py:22 | From any member of a set of paths, a member no longer than it and shortest in the set exists. |
| FileTree.AncestorsAreDirs | Folder_sync.py:22-29 | In a well-formed tree, every proper prefix of a present path is a directory. |
| FileTree.PrefixPresent | Folder_sync.py:46-50 | A well-formed tree is closed under prefixes. |
| FileTree.AddDirsUnderParent | Folder_sync.py:28-29 | When the parent exists, `os.makedirs(p)` creates p alone and the tree stays well formed. |
| FileTree.InsertWellFormed | Folder_sync.py:38 | Storing an entry under an existing directory keeps the tree well formed. |
| FileTree.RemoveFileWellFormed | Folder_sync.py:57 | Removing a file keeps the tree well formed. |
| FileTree.RemoveSubtreeWellFormed | Folder_sync.py:50 | Removing a whole subtree keeps the tree well formed. |

## Left out

- Logging (`configure_logging`, the log format, the timestamps): modelled only as the returned action log.
- `main`: argument parsing, the source-exists check, the endless loop, `time.sleep` and the `KeyboardInterrupt` handling. `SyncTwice` models two consecutive runs of the loop and nothing else.
- Real paths: `os.path.relpath` and `os.path.join` are replaced by sequences of names. Names containing separators, `.`/`..`, symbolic links and special files are not modelled.
- Floating-point modification times are modelled as integers. The code only compares them with `>`.
- Concurrent changes to either tree during a run are not modelled. Neither is a replica nested inside the source or the other way round: the two trees are distinct objects.
- A path that is a file on one side and a directory on the other is excluded by the `NoConflict` precondition. The code's behaviour there depends on `copy2`/`makedirs` internals.
- A source root or a replica root that exists but is a plain file is excluded by `WellFormed`. For a replica root that is a file, the code skips `os.makedirs` because the path exists; the run then raises at the first `os.makedirs` or `shutil.copy2` under it, or does nothing when the source is empty or missing.
- Names compare as exact strings. On a case-insensitive or Unicode-normalising file system, `os.path.exists` matches `A.txt` with `a.txt`, so after a source rename that only changes case the code keeps the old replica name. `Mirror` instead creates the new name and removes the old one.
- `Copy2` carries the modification time over exactly. The real `shutil.copy2` keeps it only to the replica file system's resolution (2 seconds on FAT). A rounded-down time makes the code copy the file again on every run, so `SecondRunQuiet` and `SyncTwice` assume the time is preserved exactly.
- Failing library calls (permissions, a full disk) are not modelled. Their other failure conditions are preconditions that the model proves are always met.
- SyncFolders: the log is specified per kind, as a set of paths, plus the root creation coming first. Neither the order of the other entries nor the absence of repeated entries is stated.
