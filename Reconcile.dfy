/**
 * What one synchronisation run makes of the replica, as functions of the
 * source tree and of the replica as it was before the run, and what such a
 * run guarantees.
 */
module Reconcile {
  import opened FileTree

  /**
   * A source file is copied when the replica has nothing at its path or holds
   * a strictly older file there; an equal or newer replica file is kept.
   */
  predicate NeedsCopy<T>(e: Entry<T>, r: Tree<T>, p: Path)
    requires e.File?
    ensures p in r && r[p].File? && r[p].mtime >= e.mtime ==> !NeedsCopy(e, r, p)
  {
    p !in r || (r[p].File? && e.mtime > r[p].mtime)
  }

  /** What the first pass leaves at a path where the source holds e. */
  function Pick<T>(e: Entry<T>, r: Tree<T>, p: Path): Entry<T>
  {
    if e.File? && !NeedsCopy(e, r, p) then r[p] else e
  }

  /**
   * The replica after the first pass: the root exists, every source directory
   * exists, stale or missing files are copies of the source's, and everything
   * else is as it was.
   */
  function Propagated<T>(s: Tree<T>, r: Tree<T>): (t: Tree<T>)
    ensures t.Keys == r.Keys + s.Keys + {[]}
    ensures forall q :: q in r && q !in s ==> t[q] == r[q]
  {
    map q | q in r.Keys + s.Keys + {[]} ::
      if q in s then Pick(s[q], r, q) else if q in r then r[q] else Dir
  }

  /** The replica after the second pass: only the root and the source's paths remain. */
  function Pruned<T>(s: Tree<T>, t: Tree<T>): (u: Tree<T>)
    ensures u.Keys == t.Keys * (s.Keys + {[]})
    ensures forall q :: q in u ==> u[q] == t[q]
  {
    map q | q in t && (q == [] || q in s) :: t[q]
  }

  /**
   * The replica after a whole run. Its paths are the source's paths plus the
   * root, whether or not the source root exists.
   */
  function Mirror<T>(s: Tree<T>, r: Tree<T>): (m: Tree<T>)
    ensures m.Keys == s.Keys + {[]}
  {
    Pruned(s, Propagated(s, r))
  }

  /** Source directories the replica lacks. */
  function MissingDirs<T>(s: Tree<T>, r: Tree<T>): (m: set<Path>)
    ensures forall p :: p in m ==> p in s && s[p].Dir? && p !in r
  {
    set p | p in s && p != [] && s[p].Dir? && p !in r
  }

  /** Source files the replica lacks or holds an older copy of. */
  function StaleFiles<T>(s: Tree<T>, r: Tree<T>): (m: set<Path>)
    ensures forall p :: p in m ==> p in s && s[p].File? && (p !in r || (r[p].File? && r[p].mtime < s[p].mtime))
  {
    set p | p in s && s[p].File? && NeedsCopy(s[p], r, p)
  }

  /**
   * A path the source lacks although its parent is the root or is in the
   * source: the topmost point of a replica subtree that must go.
   */
  predicate Extra<T>(s: Tree<T>, p: Path)
  {
    p != [] && p !in s && (Parent(p) == [] || Parent(p) in s)
  }

  /** Topmost replica directories the source lacks. */
  function ExtraDirs<T>(s: Tree<T>, r: Tree<T>): (m: set<Path>)
    ensures forall p :: p in m ==> p in r && r[p].Dir? && p != [] && p !in s
  {
    set p | p in r && r[p].Dir? && Extra(s, p)
  }

  /** Topmost replica files the source lacks. */
  function ExtraFiles<T>(s: Tree<T>, r: Tree<T>): (m: set<Path>)
    ensures forall p :: p in m ==> p in r && r[p].File? && p != [] && p !in s
  {
    set p | p in r && r[p].File? && Extra(s, p)
  }

  /** Nothing for a run to do: no root to create, nothing to create, copy or remove. */
  predicate Quiet<T>(s: Tree<T>, r: Tree<T>)
  {
    && [] in r
    && MissingDirs(s, r) == {}
    && StaleFiles(s, r) == {}
    && ExtraDirs(s, r) == {}
    && ExtraFiles(s, r) == {}
  }

  /**
   * A run leaves a well-formed replica, with a root directory, and with no
   * path that is a file on one side and a directory on the other.
   */
  lemma MirrorWellFormed<T>(s: Tree<T>, r: Tree<T>)
    requires WellFormed(s) && WellFormed(r) && NoConflict(s, r)
    ensures [] in Mirror(s, r) && Mirror(s, r)[[]] == Dir
    ensures WellFormed(Mirror(s, r))
    ensures NoConflict(s, Mirror(s, r))
  {
  }

  /**
   * The copy rule, and what it means for freshness: every source file is a
   * file of the replica afterwards, at least as new as the source's; it is the
   * source's own entry, content and time, when the replica had none or an
   * older one; otherwise the replica's entry is kept untouched.
   */
  lemma CopyRule<T>(s: Tree<T>, r: Tree<T>, p: Path)
    requires NoConflict(s, r)
    requires p in s && s[p].File?
    ensures p in Mirror(s, r) && Mirror(s, r)[p].File?
    ensures Mirror(s, r)[p].mtime >= s[p].mtime
    ensures p !in r || s[p].mtime > r[p].mtime ==> Mirror(s, r)[p] == s[p]
    ensures p in r && s[p].mtime <= r[p].mtime ==> Mirror(s, r)[p] == r[p]
  {
  }

  /**
   * A replica path missing from the source goes, and with it every path
   * below it.
   */
  lemma SubtreeRemoved<T>(s: Tree<T>, r: Tree<T>, p: Path)
    requires WellFormed(s)
    requires p in r && p != [] && p !in s
    ensures forall q :: p <= q ==> q !in Mirror(s, r)
  {
    forall q | p <= q && q in Mirror(s, r)
      ensures false
    {
      assert q in s;
      PrefixPresent(s, q, p);
    }
  }

  /** Some topmost point of removal lies above any replica path the source lacks. */
  lemma {:induction false} ExtraAbove<T>(s: Tree<T>, r: Tree<T>, q: Path)
    requires WellFormed(r)
    requires q in r && q != [] && q !in s
    ensures exists a :: a in r && Extra(s, a) && a <= q
    decreases |q|
  {
    if !Extra(s, q) {
      ExtraAbove(s, r, Parent(q));
      var a :| a in r && Extra(s, a) && a <= Parent(q);
      assert a <= q;
    } else {
      assert q <= q;
    }
  }

  /**
   * A replica equals what a run would make of it exactly when a run has
   * nothing to do.
   */
  lemma InSyncIffQuiet<T>(s: Tree<T>, r: Tree<T>)
    requires WellFormed(s) && WellFormed(r) && NoConflict(s, r)
    ensures Mirror(s, r) == r <==> Quiet(s, r)
  {
    var m := Mirror(s, r);
    if Quiet(s, r) {
      forall q | q in r
        ensures q == [] || q in s
      {
        if q != [] && q !in s {
          ExtraAbove(s, r, q);
        }
      }
      forall q | q in s
        ensures q in r && m[q] == r[q]
      {
        if s[q].Dir? {
          assert q == [] || q !in MissingDirs(s, r);
        } else {
          assert q !in StaleFiles(s, r);
        }
      }
      assert m.Keys == r.Keys;
    }
    if m == r {
      forall p | p in s && s[p].File?
        ensures !NeedsCopy(s[p], r, p)
      {
        assert p in m;
      }
      assert StaleFiles(s, r) == {};
      assert MissingDirs(s, r) == {};
    }
  }

  /**
   * Idempotence: after one run, a second run against the same source has
   * nothing to do and changes nothing.
   */
  lemma SecondRunQuiet<T>(s: Tree<T>, r: Tree<T>)
    requires WellFormed(s) && WellFormed(r) && NoConflict(s, r)
    ensures Quiet(s, Mirror(s, r))
    ensures Mirror(s, Mirror(s, r)) == Mirror(s, r)
  {
  }

  /**
   * The first pass never touches a path the second pass removes: every replica
   * path the source lacks keeps its entry, and the topmost such paths stay
   * the same.
   */
  lemma PropagatedKeepsExtras<T>(s: Tree<T>, r: Tree<T>)
    ensures forall q :: q in r && q != [] && q !in s ==> q in Propagated(s, r) && Propagated(s, r)[q] == r[q]
    ensures ExtraDirs(s, Propagated(s, r)) == ExtraDirs(s, r)
    ensures ExtraFiles(s, Propagated(s, r)) == ExtraFiles(s, r)
  {
  }

  /**
   * Creating a missing replica root changes neither what the first pass does
   * elsewhere nor its result.
   */
  lemma RootCreationInvisible<T>(s: Tree<T>, r: Tree<T>)
    requires WellFormed(s) && WellFormed(r)
    ensures Propagated(s, r[[] := Dir]) == Propagated(s, r)
    ensures MissingDirs(s, r[[] := Dir]) == MissingDirs(s, r)
    ensures StaleFiles(s, r[[] := Dir]) == StaleFiles(s, r)
  {
  }
}
