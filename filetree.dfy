/**
 * The filesystem that extraction writes into, reduced to what the library
 * uses of it: directories, regular files with their content, mkdir -p,
 * writing a file, and recursive removal. A tree maps each present path
 * other than the root to its node; the root always exists as a directory.
 */
module FileTree {
  import opened Paths
  import opened Archive

  datatype Node = Dir | File(content: string)

  type Tree = map<Path, Node>

  /** Every present path has all its proper ancestors present as directories. */
  predicate Wellformed(m: Tree) {
    && [] !in m
    && forall p, k :: p in m && 0 < k < |p| ==> p[..k] in m && m[p[..k]] == Dir
  }

  /** File.exist? */
  predicate Exists(m: Tree, p: Path) {
    p == [] || p in m
  }

  /** File.directory? */
  predicate IsDirectory(m: Tree, p: Path) {
    p == [] || (p in m && m[p] == Dir)
  }

  /** A regular file sits at p or at one of its ancestors, so p cannot be made a directory. */
  predicate Blocked(m: Tree, p: Path) {
    exists k :: 0 < k <= |p| && p[..k] in m && m[p[..k]].File?
  }

  /** The non-root ancestors of p, p included. */
  function Lineage(p: Path): set<Path> {
    set k | 0 < k <= |p| :: p[..k]
  }

  lemma LineageMembers(p: Path)
    ensures forall q :: q in Lineage(p) <==> q != [] && q <= p
  {
    forall q | q != [] && q <= p
      ensures q in Lineage(p)
    {
      assert q == p[..|q|];
    }
  }

  /**
   * FileUtils.mkdir_p on a tree where it succeeds: every missing ancestor
   * of p, and p itself, becomes a directory; nothing present changes.
   */
  function MakeDirs(m: Tree, p: Path): (r: Tree)
    ensures forall q :: q in m ==> q in r && r[q] == m[q]
    ensures forall q :: q in r && q !in m ==> q != [] && q <= p && r[q] == Dir
    ensures forall q :: q != [] && q <= p ==> q in r
  {
    LineageMembers(p);
    map q | q in m.Keys + Lineage(p) :: if q in m then m[q] else Dir
  }

  /** FileUtils.rm_rf: p and everything beneath it disappear; every other path stays as it was. */
  function RemoveTree(m: Tree, p: Path): (r: Tree)
    ensures forall q :: q in r <==> q in m && !(p <= q)
    ensures forall q :: q in r ==> r[q] == m[q]
  {
    map q | q in m && !(p <= q) :: m[q]
  }

  /** mkdir -p keeps a tree well formed and leaves p a directory, when no file is in its way. */
  lemma MakeDirsWellformed(m: Tree, p: Path)
    requires Wellformed(m) && !Blocked(m, p)
    ensures Wellformed(MakeDirs(m, p))
    ensures IsDirectory(MakeDirs(m, p), p)
  {
    var r := MakeDirs(m, p);
    forall q, k | q in r && 0 < k < |q|
      ensures q[..k] in r && r[q[..k]] == Dir
    {
      if q in m {
        assert q[..k] in m;
      } else {
        assert q[..k] <= p;
        if q[..k] in m {
          assert p[..k] == q[..k];
        }
      }
    }
    if p != [] && p in m {
      assert p[..|p|] == p;
    }
  }

  /**
   * mkdir -p fails exactly when a file is in the way; when it does not,
   * a directory that already exists is left as it is.
   */
  lemma MakeDirsOfDirectory(m: Tree, p: Path)
    requires Wellformed(m) && IsDirectory(m, p)
    ensures !Blocked(m, p)
    ensures MakeDirs(m, p) == m
  {
    if p != [] {
      forall k | 0 < k <= |p|
        ensures p[..k] in m && m[p[..k]] == Dir
      {
        if k == |p| {
          assert p[..k] == p;
        }
      }
    }
  }

  /** Writing a file whose parent is a directory keeps the tree well formed. */
  lemma WriteWellformed(m: Tree, p: Path, content: string)
    requires Wellformed(m) && IsDirectory(m, Parent(p)) && !IsDirectory(m, p)
    ensures Wellformed(m[p := File(content)])
  {
    var r := m[p := File(content)];
    assert p != [];
    forall q, k | q in r && 0 < k < |q|
      ensures q[..k] in r && r[q[..k]] == Dir
    {
      if q == p {
        var par := Parent(p);
        assert q[..k] == par[..k];
        if k < |par| {
          assert par[..k] in m;
        } else {
          assert q[..k] == par;
        }
        assert q[..k] != p;
      } else {
        assert q[..k] in m && m[q[..k]] == Dir;
        assert q[..k] != p;
      }
    }
  }

  /** Removing a subtree keeps the tree well formed and leaves nothing at or beneath p. */
  lemma RemoveTreeWellformed(m: Tree, p: Path)
    requires Wellformed(m)
    ensures Wellformed(RemoveTree(m, p))
    ensures forall q :: q in RemoveTree(m, p) ==> !(p <= q)
    ensures p != [] ==> !Exists(RemoveTree(m, p), p)
  {
    var r := RemoveTree(m, p);
    forall q, k | q in r && 0 < k < |q|
      ensures q[..k] in r && r[q[..k]] == Dir
    {
      assert q[..k] in m;
    }
  }

  /** The filesystem as the library sees it, changed in place by its calls. */
  class FileSystem {
    var nodes: Tree

    ghost predicate Valid()
      reads this
    {
      Wellformed(nodes)
    }

    constructor (initial: Tree)
      requires Wellformed(initial)
      ensures Valid() && nodes == initial
    {
      nodes := initial;
    }

    predicate PathExists(p: Path)
      reads this
    {
      Exists(nodes, p)
    }

    predicate DirectoryAt(p: Path)
      reads this
    {
      IsDirectory(nodes, p)
    }

    /** FileUtils.mkdir_p(p): raises when a regular file is in the way, and changes nothing then. */
    method MkdirP(p: Path) returns (err: Option<Error>)
      requires Valid()
      modifies this
      ensures Valid()
      ensures err == (if Blocked(old(nodes), p) then Some(NotADirectory(p)) else None)
      ensures nodes == if err.Some? then old(nodes) else MakeDirs(old(nodes), p)
      ensures err.None? ==> DirectoryAt(p)
    {
      if Blocked(nodes, p) {
        return Some(NotADirectory(p));
      }
      MakeDirsWellformed(nodes, p);
      nodes := MakeDirs(nodes, p);
      err := None;
    }

    /**
     * File.open(path, "wb") and write, where path names p and
     * `trailingSeparator` says whether its text ends in '/'. Such a path
     * can only name a directory: opening it raises ENOTDIR when a file is
     * at p and EISDIR otherwise. Without one, a directory at p raises
     * EISDIR, and otherwise the file is created or replaced. Raising
     * changes nothing.
     */
    method WriteFile(p: Path, content: string, trailingSeparator: bool) returns (err: Option<Error>)
      requires Valid() && DirectoryAt(Parent(p))
      modifies this
      ensures Valid()
      ensures err == (if trailingSeparator && p in old(nodes) && old(nodes)[p].File? then Some(NotADirectory(p))
                      else if trailingSeparator || IsDirectory(old(nodes), p) then Some(IsADirectory(p))
                      else None)
      ensures nodes == if err.Some? then old(nodes) else old(nodes)[p := File(content)]
    {
      if trailingSeparator && p in nodes && nodes[p].File? {
        return Some(NotADirectory(p));
      }
      if trailingSeparator || IsDirectory(nodes, p) {
        return Some(IsADirectory(p));
      }
      WriteWellformed(nodes, p, content);
      nodes := nodes[p := File(content)];
      err := None;
    }

    /** FileUtils.rm_rf(p). */
    method RemoveRecursive(p: Path)
      requires Valid()
      modifies this
      ensures Valid()
      ensures nodes == RemoveTree(old(nodes), p)
      ensures p != [] ==> !PathExists(p)
    {
      RemoveTreeWellformed(nodes, p);
      nodes := RemoveTree(nodes, p);
    }
  }
}
