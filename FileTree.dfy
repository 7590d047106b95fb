/**
  An abstract file system, the stage on which the backup and restore
  pipelines act.  A path is a sequence of components (`os.path.join(a, b)` is
  `a + [b]`).  Files map a path to their content; `dirs` holds the
  directories made explicitly (`os.makedirs`), which may be empty.  As on a real
  disk, a directory also exists implicitly when anything lies below it, so
  writing a file never has to create its parents.

  Tree operations (copy, remove, move) are values-to-values functions; the
  platform tools behind them (robocopy, `cmd /c rmdir`, shutil) are not part
  of this model.
*/
module FileTree {

  type Bytes = seq<bv8>
  type Path = seq<string>

  /** File content: plain bytes, or a ZIP archive kept as its members (the
      ZIP/DEFLATE encoding itself is the library's concern). */
  datatype Content = Data(bytes: Bytes) | ZipArchive(members: map<Path, Member>)

  /** One archive entry, stored under its relative path: a file with its data and
      recorded size (`intact` is false when its stored checksum does not match,
      which is what `zipfile.testzip` finds), or a directory entry. */
  datatype Member = FileEntry(content: Content, size: nat, intact: bool) | DirEntry

  datatype FileSystem = FileSystem(dirs: set<Path>, files: map<Path, Content>)

  const Empty := FileSystem({}, map[])

  /** `p` is `root` itself or lies below it. */
  predicate Under(p: Path, root: Path)
  {
    |root| <= |p| && p[..|root|] == root
  }

  /** Neither path lies inside the other: operations on one leave the other alone. */
  predicate Disjoint(a: Path, b: Path)
  {
    !Under(a, b) && !Under(b, a)
  }

  /** `os.path.exists`: something was made at or below `p`. */
  predicate Exists(fs: FileSystem, p: Path)
  {
    (exists d :: d in fs.dirs && Under(d, p)) || (exists f :: f in fs.files && Under(f, p))
  }

  lemma Rejoin(root: Path)
    ensures forall p :: Under(p, root) ==> root + p[|root|..] == p
  {
    forall p | Under(p, root) ensures root + p[|root|..] == p {
      assert p == p[..|root|] + p[|root|..];
    }
  }

  /** Two paths that both contain `p` are comparable. */
  lemma UnderBoth(p: Path, a: Path, b: Path)
    requires Under(p, a) && Under(p, b)
    ensures Under(a, b) || Under(b, a)
  {
    if |a| <= |b| {
      assert b[..|a|] == p[..|a|];
    } else {
      assert a[..|b|] == p[..|b|];
    }
  }

  lemma UnderTrans(p: Path, q: Path, r: Path)
    requires Under(p, q) && Under(q, r)
    ensures Under(p, r)
  {
    assert p[..|r|] == p[..|q|][..|r|];
  }

  lemma UnderAppend(root: Path, rest: Path)
    ensures Under(root + rest, root) && (root + rest)[|root|..] == rest
  {
    assert (root + rest)[..|root|] == root;
  }

  /** The paths of `ps` at or below `root`, made relative to `root`. */
  function RelPaths(ps: set<Path>, root: Path): (r: set<Path>)
    ensures forall q :: q in r ==> root + q in ps
    ensures forall p {:trigger Under(p, root)} :: p in ps && Under(p, root) ==> p[|root|..] in r
  {
    Rejoin(root);
    set p | p in ps && Under(p, root) :: p[|root|..]
  }

  /** Everything at or below `root`, with paths relative to `root`. */
  function Subtree(fs: FileSystem, root: Path): FileSystem
  {
    FileSystem(RelPaths(fs.dirs, root), map r | r in RelPaths(fs.files.Keys, root) :: fs.files[root + r])
  }

  /** The tree `t` placed below `dst`. */
  function Graft(t: FileSystem, dst: Path): FileSystem
  {
    FileSystem(set d | d in t.dirs :: dst + d,
               map q | q in (set f | f in t.files :: dst + f) :: t.files[q[|dst|..]])
  }

  /** `shutil.rmtree(root)`: everything at or below `root` is gone. */
  function RemoveTree(fs: FileSystem, root: Path): FileSystem
  {
    FileSystem(set d | d in fs.dirs && !Under(d, root),
               map f | f in fs.files && !Under(f, root) :: fs.files[f])
  }

  /** `b` written over `a`. */
  function Overlay(a: FileSystem, b: FileSystem): FileSystem
  {
    FileSystem(a.dirs + b.dirs, a.files + b.files)
  }

  /** A mirroring tree copy (robocopy /MIR, or shutil.copytree into a fresh
      destination): afterwards `dst` holds exactly what `src` held. */
  function Mirror(fs: FileSystem, src: Path, dst: Path): FileSystem
  {
    Overlay(RemoveTree(fs, dst), Graft(Subtree(fs, src), dst))
  }

  /** `os.makedirs(p, exist_ok=True)`. */
  function MakeDirs(fs: FileSystem, p: Path): FileSystem
  {
    FileSystem(fs.dirs + {p}, fs.files)
  }

  function WriteFile(fs: FileSystem, p: Path, c: Content): FileSystem
  {
    FileSystem(fs.dirs, fs.files[p := c])
  }

  /** `os.remove(p)`. */
  function RemoveFile(fs: FileSystem, p: Path): FileSystem
  {
    FileSystem(fs.dirs, fs.files - {p})
  }

  /** `shutil.move` of a file: it disappears at `src` and appears, unchanged, at `dst`. */
  function MoveFile(fs: FileSystem, src: Path, dst: Path): FileSystem
    requires src in fs.files
  {
    WriteFile(RemoveFile(fs, src), dst, fs.files[src])
  }

  /** A path apart from `p` and deeper than it is apart from every child of `p`. */
  lemma ChildApart(p: Path, x: string, root: Path)
    requires Disjoint(p, root) && |root| > |p|
    ensures Disjoint(p + [x], root)
  {
    UnderAppend(p, [x]);
    if Under(root, p + [x]) {
      UnderTrans(root, p + [x], p);
    }
  }

  // ---------------------------------------------------------------------------
  // What a tree copy delivers

  lemma {:induction false} SubtreeOfGraft(t: FileSystem, dst: Path)
    ensures Subtree(Graft(t, dst), dst) == t
  {
    var g := Graft(t, dst);
    var s := Subtree(g, dst);
    forall r | r in t.files ensures r in s.files && s.files[r] == t.files[r] {
      UnderAppend(dst, r);
      assert dst + r in g.files;
    }
    forall r | r in t.dirs ensures r in s.dirs {
      UnderAppend(dst, r);
      assert dst + r in g.dirs;
    }
    forall r | r in s.dirs ensures r in t.dirs {
      var d :| d in t.dirs && dst + r == dst + d;
      UnderAppend(dst, r);
      UnderAppend(dst, d);
    }
    forall r | r in s.files ensures r in t.files {
      UnderAppend(dst, r);
    }
    assert s.files.Keys == t.files.Keys;
  }

  lemma SubtreeOfOverlay(a: FileSystem, b: FileSystem, root: Path)
    ensures Subtree(Overlay(a, b), root) == Overlay(Subtree(a, root), Subtree(b, root))
  {
    RelPathsUnion(a.dirs, b.dirs, root);
    SubtreeFilesOfOverlay(a, b, root);
  }

  lemma SubtreeFilesOfOverlay(a: FileSystem, b: FileSystem, root: Path)
    ensures Subtree(Overlay(a, b), root).files == Subtree(a, root).files + Subtree(b, root).files
  {
    var o := Overlay(a, b);
    var so, sa, sb := Subtree(o, root).files, Subtree(a, root).files, Subtree(b, root).files;
    forall r ensures (r in so <==> r in sa + sb) && (r in so ==> so[r] == (sa + sb)[r]) {
      SubtreeFileAt(o, root, r);
      SubtreeFileAt(a, root, r);
      SubtreeFileAt(b, root, r);
    }
  }

  /** A file of a subtree is the file at the joined path. */
  lemma SubtreeFileAt(fs: FileSystem, root: Path, r: Path)
    ensures r in Subtree(fs, root).files <==> root + r in fs.files
    ensures r in Subtree(fs, root).files ==> Subtree(fs, root).files[r] == fs.files[root + r]
  {
    UnderAppend(root, r);
  }

  lemma RelPathsUnion(ps: set<Path>, qs: set<Path>, root: Path)
    ensures RelPaths(ps + qs, root) == RelPaths(ps, root) + RelPaths(qs, root)
  {
    forall r ensures r in RelPaths(ps + qs, root) <==> r in RelPaths(ps, root) + RelPaths(qs, root) {
      UnderAppend(root, r);
    }
  }

  lemma SubtreeOfRemovedRoot(fs: FileSystem, root: Path)
    ensures Subtree(RemoveTree(fs, root), root) == Empty
  {
    var s := Subtree(RemoveTree(fs, root), root);
    assert s.dirs == {};
    assert s.files.Keys == {};
  }

  /** After a mirroring copy, the destination holds exactly the source tree. */
  lemma {:induction false} SubtreeOfMirror(fs: FileSystem, src: Path, dst: Path)
    ensures Subtree(Mirror(fs, src, dst), dst) == Subtree(fs, src)
  {
    SubtreeOfOverlay(RemoveTree(fs, dst), Graft(Subtree(fs, src), dst), dst);
    SubtreeOfRemovedRoot(fs, dst);
    SubtreeOfGraft(Subtree(fs, src), dst);
    OverlayEmpty(Subtree(fs, src));
  }

  /** Grafting a tree with one more file adds that file below the graft point. */
  lemma GraftAddFile(t: FileSystem, dst: Path, r: Path, c: Content)
    ensures Graft(FileSystem(t.dirs, t.files[r := c]), dst)
      == FileSystem(Graft(t, dst).dirs, Graft(t, dst).files[dst + r := c])
  {
    var t1 := FileSystem(t.dirs, t.files[r := c]);
    var g0, g1 := Graft(t, dst), Graft(t1, dst);
    forall f ensures (dst + f)[|dst|..] == f {
      UnderAppend(dst, f);
    }
    assert (set f | f in t1.files :: dst + f) == (set f | f in t.files :: dst + f) + {dst + r};
    assert g1.files.Keys == g0.files[dst + r := c].Keys;
    forall q | q in g1.files ensures g1.files[q] == g0.files[dst + r := c][q] {
      var f :| f in t1.files && q == dst + f;
    }
  }

  /** Grafting a tree with one more directory adds that directory below the graft point. */
  lemma GraftAddDir(t: FileSystem, dst: Path, r: Path)
    ensures Graft(FileSystem(t.dirs + {r}, t.files), dst) == FileSystem(Graft(t, dst).dirs + {dst + r}, Graft(t, dst).files)
  {
  }

  // ---------------------------------------------------------------------------
  // Frame lemmas: what an operation leaves alone

  lemma {:induction false} SubtreeOfRemoveTreeDisjoint(fs: FileSystem, x: Path, root: Path)
    requires Disjoint(x, root)
    ensures Subtree(RemoveTree(fs, x), root) == Subtree(fs, root)
  {
    var a := Subtree(RemoveTree(fs, x), root);
    var b := Subtree(fs, root);
    Rejoin(root);
    forall p | Under(p, root) ensures !Under(p, x) {
      if Under(p, x) { UnderBoth(p, x, root); }
    }
    assert a.dirs == b.dirs;
    assert a.files.Keys == b.files.Keys;
  }

  lemma {:induction false} SubtreeOfGraftDisjoint(t: FileSystem, x: Path, root: Path)
    requires Disjoint(x, root)
    ensures Subtree(Graft(t, x), root) == Empty
  {
    var g := Graft(t, x);
    forall p | p in g.dirs ensures !Under(p, root) {
      var d :| d in t.dirs && p == x + d;
      UnderAppend(x, d);
      if Under(p, root) { UnderBoth(p, x, root); }
    }
    forall p | p in g.files ensures !Under(p, root) {
      UnderAppend(x, p[|x|..]);
      Rejoin(x);
      if Under(p, root) { UnderBoth(p, x, root); }
    }
    assert Subtree(g, root).dirs == {};
    assert Subtree(g, root).files.Keys == {};
  }

  /** A copy into `x` changes nothing at a path unrelated to `x`. */
  lemma {:induction false} SubtreeOfMirrorDisjoint(fs: FileSystem, src: Path, x: Path, root: Path)
    requires Disjoint(x, root)
    ensures Subtree(Mirror(fs, src, x), root) == Subtree(fs, root)
  {
    var a := RemoveTree(fs, x);
    var g := Graft(Subtree(fs, src), x);
    SubtreeOfOverlay(a, g, root);
    SubtreeOfRemoveTreeDisjoint(fs, x, root);
    SubtreeOfGraftDisjoint(Subtree(fs, src), x, root);
    OverlayEmpty(Subtree(fs, root));
  }

  lemma OverlayEmpty(t: FileSystem)
    ensures Overlay(t, Empty) == t && Overlay(Empty, t) == t
  {
    assert Overlay(t, Empty).files == t.files;
    assert Overlay(Empty, t).files == t.files;
  }

  lemma SubtreeOfMakeDirs(fs: FileSystem, p: Path, root: Path)
    requires !Under(p, root)
    ensures Subtree(MakeDirs(fs, p), root) == Subtree(fs, root)
  {
    assert Subtree(MakeDirs(fs, p), root).dirs == Subtree(fs, root).dirs;
  }

  lemma SubtreeOfWriteFile(fs: FileSystem, p: Path, c: Content, root: Path)
    requires !Under(p, root)
    ensures Subtree(WriteFile(fs, p, c), root) == Subtree(fs, root)
  {
    Rejoin(root);
    assert Subtree(WriteFile(fs, p, c), root).files.Keys == Subtree(fs, root).files.Keys;
  }

  lemma SubtreeOfRemoveFile(fs: FileSystem, p: Path, root: Path)
    requires !Under(p, root)
    ensures Subtree(RemoveFile(fs, p), root) == Subtree(fs, root)
  {
    Rejoin(root);
    assert Subtree(RemoveFile(fs, p), root).files.Keys == Subtree(fs, root).files.Keys;
  }

  lemma SubtreeOfMoveFile(fs: FileSystem, src: Path, dst: Path, root: Path)
    requires src in fs.files && !Under(src, root) && !Under(dst, root)
    ensures Subtree(MoveFile(fs, src, dst), root) == Subtree(fs, root)
  {
    SubtreeOfRemoveFile(fs, src, root);
    SubtreeOfWriteFile(RemoveFile(fs, src), dst, fs.files[src], root);
  }

  // ---------------------------------------------------------------------------
  // Existence is decided by the subtree

  lemma {:induction false} ExistsIffSubtree(fs: FileSystem, p: Path)
    ensures Exists(fs, p) <==> Subtree(fs, p) != Empty
  {
    var s := Subtree(fs, p);
    if Exists(fs, p) {
      if d :| d in fs.dirs && Under(d, p) {
        assert d[|p|..] in s.dirs;
      } else {
        var f :| f in fs.files && Under(f, p);
        assert f[|p|..] in s.files;
      }
    } else {
      forall r | r in s.files ensures false {
        UnderAppend(p, r);
      }
      assert s.dirs == {};
      assert s.files == map[];
    }
  }

  lemma SameSubtreeSameExists(a: FileSystem, b: FileSystem, p: Path)
    requires Subtree(a, p) == Subtree(b, p)
    ensures Exists(a, p) <==> Exists(b, p)
  {
    ExistsIffSubtree(a, p);
    ExistsIffSubtree(b, p);
  }

  /** A removed tree no longer exists. */
  lemma RemovedTreeIsGone(fs: FileSystem, root: Path)
    ensures !Exists(RemoveTree(fs, root), root)
  {
    SubtreeOfRemovedRoot(fs, root);
    ExistsIffSubtree(RemoveTree(fs, root), root);
  }

  /** A copy of an existing tree exists at its destination. */
  lemma MirrorExists(fs: FileSystem, src: Path, dst: Path)
    requires Exists(fs, src)
    ensures Exists(Mirror(fs, src, dst), dst)
  {
    SubtreeOfMirror(fs, src, dst);
    ExistsIffSubtree(fs, src);
    ExistsIffSubtree(Mirror(fs, src, dst), dst);
  }
}
