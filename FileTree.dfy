/**
 * A directory tree, seen as the map from each entry's path relative to the
 * tree's root to what is stored there. Plain files carry their modification
 * time and their content; directories carry nothing. The empty map is a tree
 * whose root directory does not exist.
 */
module FileTree {

  /** A path relative to the root: the names walked down from it. The root is []. */
  type Path = seq<string>

  datatype Entry<T> = Dir | File(mtime: int, content: T)

  type Tree<T> = map<Path, Entry<T>>

  function Parent(p: Path): Path
    requires p != []
  {
    p[..|p| - 1]
  }

  /** The root, when present, is a directory, and every other entry sits in a directory. */
  ghost predicate WellFormed<T>(t: Tree<T>)
  {
    && ([] in t ==> t[[]].Dir?)
    && forall p {:trigger Parent(p)} :: p in t && p != [] ==> Parent(p) in t && t[Parent(p)].Dir?
  }

  /** No path is a file in one tree and a directory in the other. */
  ghost predicate NoConflict<T>(s: Tree<T>, r: Tree<T>)
  {
    forall p :: p in s && p in r ==> s[p].Dir? == r[p].Dir?
  }

  /** The root, p, and every directory on the way from one to the other. */
  function Prefixes(p: Path): set<Path>
  {
    set i | 0 <= i <= |p| :: p[..i]
  }

  /** The tree once p and every missing directory above it have been created. */
  function AddDirs<T>(t: Tree<T>, p: Path): Tree<T>
  {
    map q | q in t.Keys + Prefixes(p) :: if q in t then t[q] else Dir
  }

  /** The tree without p and without anything below p. */
  function RemoveSubtree<T>(t: Tree<T>, p: Path): Tree<T>
  {
    map q | q in t && !(p <= q) :: t[q]
  }

  /** Every proper prefix of a path in a well-formed tree is a directory of it. */
  lemma {:induction false} AncestorsAreDirs<T>(t: Tree<T>, p: Path, i: nat)
    requires WellFormed(t) && p in t && i < |p|
    ensures p[..i] in t && t[p[..i]].Dir?
    decreases |p|
  {
    if i < |p| - 1 {
      AncestorsAreDirs(t, Parent(p), i);
      assert Parent(p)[..i] == p[..i];
    }
  }

  /** A well-formed tree is closed under prefixes. */
  lemma PrefixPresent<T>(t: Tree<T>, q: Path, p: Path)
    requires WellFormed(t) && q in t && p <= q
    ensures p in t && (p != q ==> t[p].Dir?)
  {
    if |p| < |q| {
      AncestorsAreDirs(t, q, |p|);
      assert q[..|p|] == p;
    } else {
      assert p == q;
    }
  }

  /**
   * When the parent of p is already a directory, creating p with all missing
   * directories above it creates p alone, and the tree stays well formed.
   */
  lemma AddDirsUnderParent<T>(t: Tree<T>, p: Path)
    requires WellFormed(t) && p != [] && p !in t
    requires Parent(p) in t && t[Parent(p)].Dir?
    ensures forall i :: 0 <= i < |p| ==> p[..i] in t && t[p[..i]].Dir?
    ensures AddDirs(t, p) == t[p := Dir]
    ensures WellFormed(AddDirs(t, p))
  {
    ProperPrefixesAreDirs(t, p);
    PrefixesBelow(t, p);
    AddDirsOnlyAddsP(t, p);
    InsertWellFormed(t, p, Dir);
  }

  /** Every directory above p exists once its parent does. */
  lemma ProperPrefixesAreDirs<T>(t: Tree<T>, p: Path)
    requires WellFormed(t) && p != []
    requires Parent(p) in t && t[Parent(p)].Dir?
    ensures forall i :: 0 <= i < |p| ==> p[..i] in t && t[p[..i]].Dir?
  {
    forall i | 0 <= i < |p|
      ensures p[..i] in t && t[p[..i]].Dir?
    {
      if i < |p| - 1 {
        AncestorsAreDirs(t, Parent(p), i);
        assert Parent(p)[..i] == p[..i];
      }
    }
  }

  /** When only p is missing on its way down, `os.makedirs` adds p alone. */
  lemma AddDirsOnlyAddsP<T>(t: Tree<T>, p: Path)
    requires p !in t
    requires Prefixes(p) <= t.Keys + {p}
    requires p in Prefixes(p)
    ensures AddDirs(t, p) == t[p := Dir]
  {
  }

  /** The prefixes of p other than p itself are already in t. */
  lemma PrefixesBelow<T>(t: Tree<T>, p: Path)
    requires forall i :: 0 <= i < |p| ==> p[..i] in t
    ensures Prefixes(p) <= t.Keys + {p}
    ensures p in Prefixes(p)
  {
    assert p[..|p|] == p;
    forall q | q in Prefixes(p)
      ensures q == p || q in t
    {
      var i :| 0 <= i <= |p| && q == p[..i];
      if i < |p| {
        assert p[..i] in t;
      }
    }
  }

  /** Storing an entry under an existing directory keeps a tree well formed. */
  lemma InsertWellFormed<T>(t: Tree<T>, p: Path, e: Entry<T>)
    requires WellFormed(t) && p != []
    requires Parent(p) in t && t[Parent(p)].Dir?
    requires p in t ==> t[p].File? || e.Dir?
    ensures WellFormed(t[p := e])
  {
  }

  /** Removing a file keeps a tree well formed: nothing lies below a file. */
  lemma RemoveFileWellFormed<T>(t: Tree<T>, p: Path)
    requires WellFormed(t) && p in t && t[p].File?
    ensures WellFormed(t - {p})
  {
  }

  /** Removing a whole subtree keeps a tree well formed. */
  lemma RemoveSubtreeWellFormed<T>(t: Tree<T>, p: Path)
    requires WellFormed(t) && p != []
    ensures WellFormed(RemoveSubtree(t, p))
  {
  }

  /** A non-empty set of paths has a shortest member. */
  lemma ShortestExists(ps: set<Path>)
    requires ps != {}
    ensures exists p :: p in ps && forall q :: q in ps ==> |p| <= |q|
  {
    var x :| x in ps;
    NoShorterThan(ps, x);
  }

  /** Starting from any member, a shortest one is found by descending to shorter members. */
  lemma {:induction false} NoShorterThan(ps: set<Path>, x: Path)
    requires x in ps
    ensures exists p :: p in ps && |p| <= |x| && forall q :: q in ps ==> |p| <= |q|
    decreases |x|
  {
    if y :| y in ps && |y| < |x| {
      NoShorterThan(ps, y);
    }
  }

  /**
   * Some path of a non-empty set of non-root paths has its parent outside the
   * set: a top-down walk can always take one more step.
   */
  lemma ReadyExists(todo: set<Path>)
    requires todo != {} && [] !in todo
    ensures exists p :: p in todo && p != [] && Parent(p) !in todo
  {
    ShortestExists(todo);
    var p :| p in todo && forall q :: q in todo ==> |p| <= |q|;
    assert |Parent(p)| < |p|;
  }
}
