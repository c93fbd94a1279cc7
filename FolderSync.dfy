/**
 * `sync_folders`: one run that mirrors a source tree onto a replica tree.
 * The first pass walks the source top-down, creating missing directories and
 * copying missing or stale files; the second walks the replica top-down,
 * deleting files and whole directory subtrees the source lacks. The returned
 * log records each change the run makes.
 */
module FolderSync {
  import opened FileTree
  import opened FileSystem
  import opened Reconcile

  /** The five kinds of change the synchroniser logs. */
  datatype Kind = ReplicaCreated | FolderCreated | FileCopied | FolderRemoved | FileRemoved

  datatype Action = Action(kind: Kind, path: Path)

  /** The paths the log records changes of the given kind at. */
  function Paths(log: seq<Action>, k: Kind): set<Path>
  {
    set a | a in log && a.kind == k :: a.path
  }

  /** Logging one more action adds its path under its kind. */
  lemma PathsAppend(log: seq<Action>, a: Action)
    ensures forall k :: Paths(log + [a], k) == Paths(log, k) + (if a.kind == k then {a.path} else {})
  {
  }

  /** The paths of a joined log are those of its parts. */
  lemma PathsConcat(x: seq<Action>, y: seq<Action>)
    ensures forall k :: Paths(x + y, k) == Paths(x, k) + Paths(y, k)
  {
  }

  /** A log records nothing exactly when it records no path of any kind. */
  lemma EmptyLog(log: seq<Action>)
    ensures log == [] <==>
      && Paths(log, ReplicaCreated) == {}
      && Paths(log, FolderCreated) == {}
      && Paths(log, FileCopied) == {}
      && Paths(log, FolderRemoved) == {}
      && Paths(log, FileRemoved) == {}
  {
    if log != [] {
      assert log[0].path in Paths(log, log[0].kind);
    }
  }

  /**
   * The first pass part-way: the paths left in todo are the source paths the
   * walk has not reached; those it has reached hold what the finished pass
   * leaves there, and the log records exactly the changes made at them.
   */
  ghost predicate PropagateInv<T>(s: Tree<T>, r0: Tree<T>, todo: set<Path>, t: Tree<T>, log: seq<Action>)
  {
    PropagateTree(s, r0, todo, t) && PropagateLog(s, r0, todo, log)
  }

  ghost predicate PropagateTree<T>(s: Tree<T>, r0: Tree<T>, todo: set<Path>, t: Tree<T>)
  {
    && todo <= s.Keys - {[]}
    && (forall q :: q in t <==> q in r0 || (q in s && q != [] && q !in todo))
    && (forall q :: q in s && q != [] && q !in todo ==> t[q] == Pick(s[q], r0, q))
    && (forall q :: q in r0 && (q == [] || q !in s || q in todo) ==> t[q] == r0[q])
    && WellFormed(t)
  }

  ghost predicate PropagateLog<T>(s: Tree<T>, r0: Tree<T>, todo: set<Path>, log: seq<Action>)
  {
    && Paths(log, FolderCreated) == MissingDirs(s, r0) - todo
    && Paths(log, FileCopied) == StaleFiles(s, r0) - todo
    && Paths(log, ReplicaCreated) == {}
    && Paths(log, FolderRemoved) == {}
    && Paths(log, FileRemoved) == {}
  }

  /** Where the walk stands when it has yet to reach a path p whose parent it has passed. */
  lemma PropagateReady<T>(s: Tree<T>, r0: Tree<T>, todo: set<Path>, t: Tree<T>, log: seq<Action>, p: Path)
    requires WellFormed(s) && NoConflict(s, r0) && [] in r0 && r0[[]].Dir?
    requires PropagateInv(s, r0, todo, t, log)
    requires p in todo && p != [] && Parent(p) !in todo
    ensures Parent(p) in t && t[Parent(p)].Dir?
    ensures p in t <==> p in r0
    ensures p in t ==> t[p] == r0[p] && t[p].Dir? == s[p].Dir?
  {
  }

  /** Creating a missing source directory p where the walk stands. */
  lemma PropagateDirCreated<T>(s: Tree<T>, r0: Tree<T>, todo: set<Path>, t: Tree<T>, log: seq<Action>, p: Path)
    requires PropagateInv(s, r0, todo, t, log)
    requires p in todo && s[p].Dir? && p !in t
    requires p != [] && Parent(p) in t && t[Parent(p)].Dir?
    ensures PropagateInv(s, r0, todo - {p}, t[p := Dir], log + [Action(FolderCreated, p)])
  {
    PropagateTreeStep(s, r0, todo, t, p, Dir);
    PropagateLogStep(s, r0, todo, log, p, FolderCreated);
  }

  /** Copying a missing or stale source file p where the walk stands. */
  lemma PropagateFileCopied<T>(s: Tree<T>, r0: Tree<T>, todo: set<Path>, t: Tree<T>, log: seq<Action>, p: Path)
    requires PropagateInv(s, r0, todo, t, log)
    requires p in todo && s[p].File?
    requires p in t <==> p in r0
    requires p in t ==> t[p] == r0[p] && t[p].File?
    requires p !in t || s[p].mtime > t[p].mtime
    requires p != [] && Parent(p) in t && t[Parent(p)].Dir?
    ensures PropagateInv(s, r0, todo - {p}, t[p := s[p]], log + [Action(FileCopied, p)])
  {
    PropagateTreeStep(s, r0, todo, t, p, s[p]);
    PropagateLogStep(s, r0, todo, log, p, FileCopied);
  }

  /** Storing at p what the finished pass leaves there keeps the tree in step with the walk. */
  lemma PropagateTreeStep<T>(s: Tree<T>, r0: Tree<T>, todo: set<Path>, t: Tree<T>, p: Path, e: Entry<T>)
    requires PropagateTree(s, r0, todo, t)
    requires p in todo && e == Pick(s[p], r0, p)
    requires p != [] && Parent(p) in t && t[Parent(p)].Dir?
    requires p in t ==> t[p].File? || e.Dir?
    ensures PropagateTree(s, r0, todo - {p}, t[p := e])
  {
  }

  /** Logging the change the walk makes at p keeps the log in step with the walk. */
  lemma PropagateLogStep<T>(s: Tree<T>, r0: Tree<T>, todo: set<Path>, log: seq<Action>, p: Path, k: Kind)
    requires PropagateLog(s, r0, todo, log) && p in todo
    requires k == FolderCreated ==> p in MissingDirs(s, r0)
    requires k == FileCopied ==> p in StaleFiles(s, r0) && p !in MissingDirs(s, r0)
    requires k == FolderCreated || k == FileCopied
    requires k == FolderCreated ==> p !in StaleFiles(s, r0)
    ensures PropagateLog(s, r0, todo - {p}, log + [Action(k, p)])
  {
    PathsAppend(log, Action(k, p));
    if k == FolderCreated {
      assert MissingDirs(s, r0) - (todo - {p}) == (MissingDirs(s, r0) - todo) + {p};
      assert StaleFiles(s, r0) - (todo - {p}) == StaleFiles(s, r0) - todo;
    } else {
      assert MissingDirs(s, r0) - (todo - {p}) == MissingDirs(s, r0) - todo;
      assert StaleFiles(s, r0) - (todo - {p}) == (StaleFiles(s, r0) - todo) + {p};
    }
  }

  /** Passing over a source path the replica already holds up to date. */
  lemma PropagateUnchanged<T>(s: Tree<T>, r0: Tree<T>, todo: set<Path>, t: Tree<T>, log: seq<Action>, p: Path)
    requires PropagateInv(s, r0, todo, t, log)
    requires p in todo && p in t && t[p] == r0[p] && t[p].Dir? == s[p].Dir?
    requires s[p].File? ==> s[p].mtime <= t[p].mtime
    ensures PropagateInv(s, r0, todo - {p}, t, log)
  {
  }

  /** The finished first pass leaves `Propagated`. */
  lemma PropagateDone<T>(s: Tree<T>, r0: Tree<T>, t: Tree<T>, log: seq<Action>)
    requires [] in r0
    requires PropagateInv(s, r0, {}, t, log)
    ensures t == Propagated(s, r0)
  {
  }

  /**
   * The first pass, over a replica whose root exists: every source directory
   * is created where missing, every source file copied where the replica has
   * none or an older one; the source is only read.
   */
  method PropagatePass<T>(source: Folder<T>, replica: Folder<T>) returns (log: seq<Action>)
    requires source != replica
    requires WellFormed(source.tree) && WellFormed(replica.tree)
    requires NoConflict(source.tree, replica.tree)
    requires [] in replica.tree
    modifies replica
    ensures replica.tree == Propagated(source.tree, old(replica.tree))
    ensures WellFormed(replica.tree)
    ensures Paths(log, FolderCreated) == MissingDirs(source.tree, old(replica.tree))
    ensures Paths(log, FileCopied) == StaleFiles(source.tree, old(replica.tree))
    ensures Paths(log, ReplicaCreated) == {}
    ensures Paths(log, FolderRemoved) == {} && Paths(log, FileRemoved) == {}
  {
    var s := source.tree;
    ghost var r0 := replica.tree;
    log := [];
    var todo := s.Keys - {[]};
    while todo != {}
      invariant source.tree == s
      invariant PropagateInv(s, r0, todo, replica.tree, log)
      decreases todo
    {
      ReadyExists(todo);
      var p :| p in todo && p != [] && Parent(p) !in todo;
      PropagateReady(s, r0, todo, replica.tree, log, p);
      if s[p].Dir? {
        if p !in replica.tree {
          AddDirsUnderParent(replica.tree, p);
          PropagateDirCreated(s, r0, todo, replica.tree, log, p);
          replica.MakeDirs(p);
          log := log + [Action(FolderCreated, p)];
        } else {
          PropagateUnchanged(s, r0, todo, replica.tree, log, p);
        }
      } else {
        if p !in replica.tree || s[p].mtime > replica.tree[p].mtime {
          PropagateFileCopied(s, r0, todo, replica.tree, log, p);
          replica.Copy2(source, p);
          log := log + [Action(FileCopied, p)];
        } else {
          PropagateUnchanged(s, r0, todo, replica.tree, log, p);
        }
      }
      todo := todo - {p};
    }
    PropagateDone(s, r0, replica.tree, log);
  }

  /**
   * The second pass part-way: the paths left in todo are the replica paths the
   * walk has not reached. Nothing the source holds has been removed, nothing
   * not yet reached whose parent survives has been removed, every reached path
   * the source lacks is gone, and the log names the tops of what went.
   */
  ghost predicate PruneInv<T>(s: Tree<T>, r1: Tree<T>, todo: set<Path>, t: Tree<T>, log: seq<Action>)
  {
    && todo <= r1.Keys - {[]}
    && (forall q :: q in t ==> q in r1 && t[q] == r1[q])
    && (forall q :: q in r1 && (q == [] || q in s) ==> q in t)
    && (forall q :: q in todo && q != [] && (Parent(q) == [] || Parent(q) in s) ==> q in t)
    && (forall q :: q in r1 && q != [] && q !in s && q !in todo ==> q !in t)
    && WellFormed(t)
    && Paths(log, FolderRemoved) == ExtraDirs(s, r1) - todo
    && Paths(log, FileRemoved) == ExtraFiles(s, r1) - todo
    && Paths(log, ReplicaCreated) == {}
    && Paths(log, FolderCreated) == {}
    && Paths(log, FileCopied) == {}
  }

  /** A path the walk reaches while it is still there, and the source lacks, is the top of what goes. */
  lemma PruneReady<T>(s: Tree<T>, r1: Tree<T>, todo: set<Path>, t: Tree<T>, log: seq<Action>, p: Path)
    requires PruneInv(s, r1, todo, t, log)
    requires p in todo && p != [] && Parent(p) !in todo
    ensures p in t && p !in s ==> Extra(s, p)
    ensures Extra(s, p) ==> p in t
  {
  }

  /** Passing a path the source holds, or one already gone with its ancestor. */
  lemma PruneSkipped<T>(s: Tree<T>, r1: Tree<T>, todo: set<Path>, t: Tree<T>, log: seq<Action>, p: Path)
    requires PruneInv(s, r1, todo, t, log)
    requires p in todo && !Extra(s, p)
    requires p !in t || p in s
    ensures PruneInv(s, r1, todo - {p}, t, log)
  {
  }

  /** Removing the subtree at a topmost path the source lacks. */
  lemma PruneDirRemoved<T>(s: Tree<T>, r1: Tree<T>, todo: set<Path>, t: Tree<T>, log: seq<Action>, p: Path)
    requires WellFormed(s)
    requires PruneInv(s, r1, todo, t, log)
    requires p in todo && p in t && t[p].Dir? && Extra(s, p)
    ensures PruneInv(s, r1, todo - {p}, RemoveSubtree(t, p), log + [Action(FolderRemoved, p)])
  {
    SubtreeOutsideSource(s, p);
    RemoveSubtreeWellFormed(t, p);
    PathsAppend(log, Action(FolderRemoved, p));
    assert ExtraDirs(s, r1) - (todo - {p}) == (ExtraDirs(s, r1) - todo) + {p};
    assert ExtraFiles(s, r1) - (todo - {p}) == ExtraFiles(s, r1) - todo;
  }

  /** Removing a file the source lacks. */
  lemma PruneFileRemoved<T>(s: Tree<T>, r1: Tree<T>, todo: set<Path>, t: Tree<T>, log: seq<Action>, p: Path)
    requires PruneInv(s, r1, todo, t, log)
    requires p in todo && p in t && t[p].File? && Extra(s, p)
    ensures PruneInv(s, r1, todo - {p}, t - {p}, log + [Action(FileRemoved, p)])
  {
    RemoveFileWellFormed(t, p);
    PathsAppend(log, Action(FileRemoved, p));
    assert ExtraDirs(s, r1) - (todo - {p}) == ExtraDirs(s, r1) - todo;
    assert ExtraFiles(s, r1) - (todo - {p}) == (ExtraFiles(s, r1) - todo) + {p};
  }

  /** The finished second pass leaves `Pruned`. */
  lemma PruneDone<T>(s: Tree<T>, r1: Tree<T>, t: Tree<T>, log: seq<Action>)
    requires PruneInv(s, r1, {}, t, log)
    ensures t == Pruned(s, r1)
  {
  }

  /**
   * The second pass: every replica file the source lacks is removed, and every
   * replica directory the source lacks is removed with all it holds. Only the
   * topmost removed path of each subtree is logged.
   */
  method PrunePass<T>(source: Folder<T>, replica: Folder<T>) returns (log: seq<Action>)
    requires source != replica
    requires WellFormed(source.tree) && WellFormed(replica.tree)
    modifies replica
    ensures replica.tree == Pruned(source.tree, old(replica.tree))
    ensures WellFormed(replica.tree)
    ensures Paths(log, FolderRemoved) == ExtraDirs(source.tree, old(replica.tree))
    ensures Paths(log, FileRemoved) == ExtraFiles(source.tree, old(replica.tree))
    ensures Paths(log, ReplicaCreated) == {}
    ensures Paths(log, FolderCreated) == {} && Paths(log, FileCopied) == {}
  {
    var s := source.tree;
    ghost var r1 := replica.tree;
    log := [];
    var todo := replica.tree.Keys - {[]};
    while todo != {}
      invariant source.tree == s
      invariant PruneInv(s, r1, todo, replica.tree, log)
      decreases todo
    {
      ReadyExists(todo);
      var p :| p in todo && p != [] && Parent(p) !in todo;
      PruneReady(s, r1, todo, replica.tree, log, p);
      if p in replica.tree && p !in s {
        if replica.tree[p].Dir? {
          PruneDirRemoved(s, r1, todo, replica.tree, log, p);
          replica.RmTree(p);
          log := log + [Action(FolderRemoved, p)];
        } else {
          PruneFileRemoved(s, r1, todo, replica.tree, log, p);
          replica.Remove(p);
          log := log + [Action(FileRemoved, p)];
        }
      } else {
        PruneSkipped(s, r1, todo, replica.tree, log, p);
      }
      todo := todo - {p};
    }
    PruneDone(s, r1, replica.tree, log);
  }

  /**
   * Below a path the source lacks, nothing is in the source, and no path
   * below it has its parent in the source.
   */
  lemma SubtreeOutsideSource<T>(s: Tree<T>, p: Path)
    requires WellFormed(s) && p != [] && p !in s
    ensures forall q :: q in s ==> !(p <= q)
    ensures forall q :: p <= q && q != p ==> Parent(q) != [] && Parent(q) !in s
  {
    forall q | q in s && p <= q
      ensures false
    {
      PrefixPresent(s, q, p);
    }
    forall q | p <= q && q != p
      ensures Parent(q) != [] && Parent(q) !in s
    {
      assert p <= Parent(q);
    }
  }

  /**
   * One run of the synchroniser. Afterwards the replica holds exactly the
   * source's paths and its root; source directories and up-to-date replica
   * files are left as they were; the source is unchanged. The log records each
   * change the run makes: the replica root first when it had to be created, every
   * missing directory, every copied file, and the top of every removed file or
   * subtree. It is empty exactly when the replica already was a mirror.
   */
  method SyncFolders<T>(source: Folder<T>, replica: Folder<T>) returns (log: seq<Action>)
    requires source != replica
    requires WellFormed(source.tree) && WellFormed(replica.tree)
    requires NoConflict(source.tree, replica.tree)
    modifies replica
    ensures source.tree == old(source.tree)
    ensures replica.tree == Mirror(source.tree, old(replica.tree))
    ensures WellFormed(replica.tree) && NoConflict(source.tree, replica.tree)
    ensures Paths(log, ReplicaCreated) == (if [] in old(replica.tree) then {} else {[]})
    ensures [] !in old(replica.tree) ==> log != [] && log[0] == Action(ReplicaCreated, [])
    ensures Paths(log, FolderCreated) == MissingDirs(source.tree, old(replica.tree))
    ensures Paths(log, FileCopied) == StaleFiles(source.tree, old(replica.tree))
    ensures Paths(log, FolderRemoved) == ExtraDirs(source.tree, old(replica.tree))
    ensures Paths(log, FileRemoved) == ExtraFiles(source.tree, old(replica.tree))
    ensures log == [] <==> old(replica.tree) == Mirror(source.tree, old(replica.tree))
  {
    ghost var s, r0 := source.tree, replica.tree;
    var created: seq<Action> := [];
    if [] !in replica.tree {
      var root: Path := [];
      assert Prefixes(root) == {root} by {
        assert root[..0] == root;
      }
      replica.MakeDirs(root);
      assert replica.tree == r0[[] := Dir];
      RootCreationInvisible(s, r0);
      created := [Action(ReplicaCreated, [])];
    }
    ghost var r0' := replica.tree;
    var copied := PropagatePass(source, replica);
    assert replica.tree == Propagated(s, r0);
    assert Paths(copied, FolderCreated) == MissingDirs(s, r0);
    assert Paths(copied, FileCopied) == StaleFiles(s, r0);
    PropagatedKeepsExtras(s, r0);
    var removed := PrunePass(source, replica);
    log := created + copied + removed;
    MirrorWellFormed(s, r0);
    RunLog(s, r0, created, copied, removed);
  }

  /** How the logs of the root creation and of the two passes make up the log of the run. */
  lemma RunLog<T>(s: Tree<T>, r0: Tree<T>, created: seq<Action>, copied: seq<Action>, removed: seq<Action>)
    requires WellFormed(s) && WellFormed(r0) && NoConflict(s, r0)
    requires created == if [] in r0 then [] else [Action(ReplicaCreated, [])]
    requires Paths(copied, FolderCreated) == MissingDirs(s, r0)
    requires Paths(copied, FileCopied) == StaleFiles(s, r0)
    requires Paths(copied, ReplicaCreated) == {}
    requires Paths(copied, FolderRemoved) == {} && Paths(copied, FileRemoved) == {}
    requires Paths(removed, FolderRemoved) == ExtraDirs(s, r0)
    requires Paths(removed, FileRemoved) == ExtraFiles(s, r0)
    requires Paths(removed, ReplicaCreated) == {}
    requires Paths(removed, FolderCreated) == {} && Paths(removed, FileCopied) == {}
    ensures var log := created + copied + removed;
      && Paths(log, ReplicaCreated) == (if [] in r0 then {} else {[]})
      && ([] !in r0 ==> log != [] && log[0] == Action(ReplicaCreated, []))
      && Paths(log, FolderCreated) == MissingDirs(s, r0)
      && Paths(log, FileCopied) == StaleFiles(s, r0)
      && Paths(log, FolderRemoved) == ExtraDirs(s, r0)
      && Paths(log, FileRemoved) == ExtraFiles(s, r0)
      && (log == [] <==> r0 == Mirror(s, r0))
  {
    var log := created + copied + removed;
    PathsAppend([], Action(ReplicaCreated, []));
    PathsConcat(created, copied);
    PathsConcat(created + copied, removed);
    QuietLog(s, r0, log);
  }

  /** A run whose log names exactly the changes due logs nothing exactly when the replica already was a mirror. */
  lemma QuietLog<T>(s: Tree<T>, r0: Tree<T>, log: seq<Action>)
    requires WellFormed(s) && WellFormed(r0) && NoConflict(s, r0)
    requires Paths(log, ReplicaCreated) == (if [] in r0 then {} else {[]})
    requires Paths(log, FolderCreated) == MissingDirs(s, r0)
    requires Paths(log, FileCopied) == StaleFiles(s, r0)
    requires Paths(log, FolderRemoved) == ExtraDirs(s, r0)
    requires Paths(log, FileRemoved) == ExtraFiles(s, r0)
    ensures log == [] <==> r0 == Mirror(s, r0)
  {
    EmptyLog(log);
    assert log == [] <==> Quiet(s, r0);
    InSyncIffQuiet(s, r0);
  }

  /**
   * Two consecutive runs of the synchroniser's loop against a source that does
   * not change in between: the second has nothing to do.
   */
  method SyncTwice<T>(source: Folder<T>, replica: Folder<T>) returns (first: seq<Action>, second: seq<Action>)
    requires source != replica
    requires WellFormed(source.tree) && WellFormed(replica.tree)
    requires NoConflict(source.tree, replica.tree)
    modifies replica
    ensures replica.tree == Mirror(source.tree, old(replica.tree))
    ensures second == []
  {
    ghost var r0 := replica.tree;
    first := SyncFolders(source, replica);
    SecondRunQuiet(source.tree, r0);
    second := SyncFolders(source, replica);
  }
}
