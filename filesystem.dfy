/** The part of std::filesystem the renderer relies on, over a directory
    tree held as a value: exists, create_directories, and writing a file
    through an ofstream. */
module FileSystem {
  import opened Results
  import opened Paths

  datatype Node = Dir | File(content: string) | Other

  /** Every entry below the root, by its path from the root. The root itself
      is a directory and is not stored. */
  type Tree = map<Path, Node>

  /** q is p or one of its ancestors. */
  predicate IsPrefix(q: Path, p: Path) {
    |q| <= |p| && p[..|q|] == q
  }

  /** Every entry's parent is a directory entry (or the root). */
  predicate IsTree(fs: Tree) {
    forall p :: p in fs ==> p != [] && (|p| > 1 ==> Parent(p) in fs && fs[Parent(p)] == Dir)
  }

  /** fs::exists. */
  predicate Exists(fs: Tree, p: Path) {
    p == [] || p in fs
  }

  /** fs::is_directory. */
  predicate IsDir(fs: Tree, p: Path) {
    p == [] || (p in fs && fs[p] == Dir)
  }

  /** fs::create_directories: makes every missing directory on the way to p;
      it fails when something on the way is not a directory. */
  function MkDirs(fs: Tree, p: Path): Option<Tree>
    decreases |p|
  {
    if p == [] then Some(fs)
    else
      match MkDirs(fs, Parent(p))
      case None => None
      case Some(fs1) =>
        if p !in fs1 then Some(fs1[p := Dir])
        else if fs1[p] == Dir then Some(fs1)
        else None
  }

  /** std::ofstream on p followed by writing the content: needs an existing
      parent directory and a target that is not a directory or other
      special entry; an existing file is truncated. */
  function WriteFile(fs: Tree, p: Path, content: string): Option<Tree> {
    if p == [] || !IsDir(fs, Parent(p)) then None
    else if p in fs && !fs[p].File? then None
    else Some(fs[p := File(content)])
  }

  /** In a tree every ancestor of an entry is a directory entry. */
  lemma {:induction false} AncestorsAreDirs(fs: Tree, p: Path, k: nat)
    requires IsTree(fs) && p in fs && 0 < k < |p|
    ensures p[..k] in fs && fs[p[..k]] == Dir
    decreases |p| - k
  {
    var q := Parent(p);
    assert q in fs && fs[q] == Dir;
    if k < |q| {
      AncestorsAreDirs(fs, q, k);
      assert q[..k] == p[..k];
    }
  }

  /** create_directories succeeds exactly when nothing on the way is a
      non-directory; it then leaves every existing entry as it was, adds
      only directories on the way to p, and p is a directory. */
  lemma {:induction false} MkDirsSpec(fs: Tree, p: Path)
    ensures MkDirs(fs, p).Some? <==> forall k :: 0 < k <= |p| && p[..k] in fs ==> fs[p[..k]] == Dir
    ensures MkDirs(fs, p).Some? ==>
              var fs' := MkDirs(fs, p).value;
              && IsDir(fs', p)
              && (forall q :: q in fs ==> q in fs' && fs'[q] == fs[q])
              && (forall q :: q in fs' && q !in fs ==> fs'[q] == Dir && q != [] && IsPrefix(q, p))
              && (forall k :: 0 < k <= |p| ==> p[..k] in fs')
    decreases |p|
  {
    if p != [] {
      var q := Parent(p);
      MkDirsSpec(fs, q);
      assert forall k :: 0 < k <= |q| ==> q[..k] == p[..k];
      if MkDirs(fs, q).Some? {
        var fs1 := MkDirs(fs, q).value;
        assert p in fs1 <==> p in fs;
        assert p[..|p|] == p;
      } else {
        var k :| 0 < k <= |q| && q[..k] in fs && fs[q[..k]] != Dir;
        assert p[..k] == q[..k];
      }
    }
  }

  /** create_directories keeps a tree a tree. */
  lemma {:induction false} MkDirsKeepsTree(fs: Tree, p: Path)
    requires IsTree(fs)
    ensures MkDirs(fs, p).Some? ==> IsTree(MkDirs(fs, p).value)
    decreases |p|
  {
    if p != [] {
      MkDirsKeepsTree(fs, Parent(p));
      MkDirsSpec(fs, Parent(p));
    }
  }

  /** Writing a file keeps a tree a tree, and changes only that entry. */
  lemma WriteFileSpec(fs: Tree, p: Path, content: string)
    ensures WriteFile(fs, p, content).Some? <==>
              p != [] && IsDir(fs, Parent(p)) && (p in fs ==> fs[p].File?)
    ensures WriteFile(fs, p, content).Some? ==>
              var fs' := WriteFile(fs, p, content).value;
              && fs'[p] == File(content)
              && (forall q :: q in fs && q != p ==> q in fs' && fs'[q] == fs[q])
              && (forall q :: q in fs' ==> q in fs || q == p)
    ensures IsTree(fs) && WriteFile(fs, p, content).Some? ==> IsTree(WriteFile(fs, p, content).value)
  {
  }
}
