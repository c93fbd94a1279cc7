/**
 * One directory tree on disk, reached through its root, and the four
 * operations of `os` and `shutil` the synchroniser mutates it with. The
 * `requires` of `MakeDirs`, `Remove` and `RmTree` are what the library call
 * needs not to raise; `Copy2` also excludes a directory at the destination.
 */
module FileSystem {
  import opened FileTree

  class Folder<T> {
    /** Every entry below the root, by relative path; `map[]` when the root is missing. */
    var tree: Tree<T>

    constructor (t: Tree<T>)
      ensures tree == t
    {
      tree := t;
    }

    /**
     * `os.makedirs(p)`: creates p and every missing directory above it. It
     * fails when p already exists or when a path above it is a file.
     */
    method MakeDirs(p: Path)
      requires p !in tree
      requires forall i :: 0 <= i < |p| && p[..i] in tree ==> tree[p[..i]].Dir?
      modifies this
      ensures tree == AddDirs(old(tree), p)
    {
      tree := AddDirs(tree, p);
    }

    /**
     * `shutil.copy2(src/p, this/p)`: the file at p in src, content and
     * modification time alike, replaces whatever file this tree holds at p.
     * The directory that receives it must exist, or the call raises. A
     * directory at p itself is excluded too: there the real call does not
     * raise but copies into p, a file-against-directory case the model leaves
     * out.
     */
    method Copy2(src: Folder<T>, p: Path)
      requires src != this
      requires p in src.tree && src.tree[p].File?
      requires p != [] && Parent(p) in tree && tree[Parent(p)].Dir?
      requires p in tree ==> tree[p].File?
      modifies this
      ensures tree == old(tree)[p := src.tree[p]]
    {
      tree := tree[p := src.tree[p]];
    }

    /** `os.remove(p)`: deletes one file. */
    method Remove(p: Path)
      requires p in tree && tree[p].File?
      modifies this
      ensures tree == old(tree) - {p}
    {
      tree := tree - {p};
    }

    /** `shutil.rmtree(p)`: deletes a directory and everything below it. */
    method RmTree(p: Path)
      requires p in tree && tree[p].Dir?
      modifies this
      ensures tree == RemoveSubtree(old(tree), p)
    {
      tree := RemoveSubtree(tree, p);
    }
  }
}
