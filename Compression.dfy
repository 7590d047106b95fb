/**
  `CompressionManager` (old/compression.py): packing a directory into a ZIP
  archive and unpacking it again, with the progress values reported to the
  caller.  The archive is kept as its members (relative path to entry); the
  worker threads are modelled as a sequential pass, in the order the source
  submits the work, and every environment effect (an unreadable size, a file
  that cannot be read or written, an archive that cannot be created) is an
  input.
*/
module Compression {
  import opened Wrappers
  import opened FileTree

  // ---------------------------------------------------------------------------
  // Progress values

  /** The value reported after `done` of `total` items, on a band from `base` to
      `base + span`: `base + int((done / total) * span)`. */
  function Tick(base: int, span: nat, done: nat, total: nat): int
    requires 0 < total
  {
    base + (done * span) / total
  }

  /** The values reported after each of `total` items. */
  function Ticks(base: int, span: nat, total: nat): (ts: seq<int>)
    ensures |ts| == total
    ensures forall i :: 0 <= i < total ==> ts[i] == Tick(base, span, i + 1, total)
  {
    seq(total, i requires 0 <= i < total => Tick(base, span, i + 1, total))
  }

  lemma DivMonotone(a: nat, b: nat, n: nat)
    requires a <= b && 0 < n
    ensures a / n <= b / n
  {
    assert (a / n) * n <= a;
    assert b < (b / n + 1) * n;
    MulCancel(a / n, b / n + 1, n);
  }

  lemma MulCancel(x: int, y: int, n: int)
    requires 0 < n && x * n < y * n
    ensures x < y
  {
    assert (y - x) * n == y * n - x * n;
  }

  lemma MulDiv(s: nat, t: nat)
    requires 0 < t
    ensures (t * s) / t == s
  {
    var q, r := (t * s) / t, (t * s) % t;
    assert t * s == q * t + r;
    assert (s - q) * t == r;
    MulCancel(s - q, 1, t);
    MulCancel(-1, s - q, t);
  }

  /** One value of the band. */
  lemma TickOnBand(base: int, span: nat, done: nat, total: nat)
    requires 0 < total && done <= total
    ensures base <= Tick(base, span, done, total) <= base + span
    ensures done == total ==> Tick(base, span, done, total) == base + span
  {
    assert done * span <= total * span;
    DivMonotone(done * span, total * span, total);
    MulDiv(span, total);
  }

  lemma TickMonotone(base: int, span: nat, i: nat, j: nat, total: nat)
    requires 0 < total && i <= j
    ensures Tick(base, span, i, total) <= Tick(base, span, j, total)
  {
    assert i * span <= j * span;
    DivMonotone(i * span, j * span, total);
  }

  /** The per-item values stay on their band, never go down, and end at its top. */
  lemma TicksOnBand(base: int, span: nat, total: nat)
    ensures forall i :: 0 <= i < total ==> base <= Ticks(base, span, total)[i] <= base + span
    ensures forall i, j :: 0 <= i <= j < total ==> Ticks(base, span, total)[i] <= Ticks(base, span, total)[j]
    ensures 0 < total ==> Ticks(base, span, total)[total - 1] == base + span
  {
    var ts := Ticks(base, span, total);
    forall i | 0 <= i < total ensures base <= ts[i] <= base + span {
      TickOnBand(base, span, i + 1, total);
    }
    forall i, j | 0 <= i <= j < total ensures ts[i] <= ts[j] {
      TickMonotone(base, span, i + 1, j + 1, total);
    }
    if 0 < total {
      TickOnBand(base, span, total, total);
    }
  }

  predicate NonDecreasing(s: seq<int>)
  {
    forall i, j :: 0 <= i <= j < |s| ==> s[i] <= s[j]
  }

  /** A band of ticks between a value at or below its bottom and one at or above its top. */
  lemma BandedIsNonDecreasing(before: seq<int>, base: int, span: nat, total: nat, after: seq<int>)
    requires NonDecreasing(before) && NonDecreasing(after)
    requires forall x :: x in before ==> x <= base
    requires forall x :: x in after ==> base + span <= x
    ensures NonDecreasing(before + Ticks(base, span, total) + after)
  {
    TicksOnBand(base, span, total);
    var s := before + Ticks(base, span, total) + after;
    forall i, j | 0 <= i <= j < |s| ensures s[i] <= s[j] {
      if j < |before| {
      } else if i < |before| {
        assert s[i] in before;
        if j < |before| + total {
          assert s[j] == Ticks(base, span, total)[j - |before|];
        } else {
          assert s[j] in after;
        }
      } else if i < |before| + total {
        if j >= |before| + total {
          assert s[j] in after;
        }
      }
    }
  }

  // ---------------------------------------------------------------------------
  // Collecting, sorting and batching the files

  /** One entry of `files_to_compress`: `(file_path, arc_path, file_size)`. */
  datatype Pending = Pending(path: Path, arcName: Path, size: nat)

  /** The files `os.walk(root)` reaches whose size `os.path.getsize` can read
      (`sizes` holds the readable sizes). */
  function Collectable(fs: FileSystem, root: Path, sizes: map<Path, nat>): set<Path>
  {
    set p | p in fs.files && |p| > |root| && Under(p, root) && p in sizes
  }

  /** `item` is `(path, relpath(path, root), getsize(path))` for a collectable `path`. */
  predicate WellFormed(fs: FileSystem, root: Path, sizes: map<Path, nat>, item: Pending)
  {
    && item.path in Collectable(fs, root, sizes)
    && item.arcName == item.path[|root|..]
    && item.size == sizes[item.path]
  }

  function PathsOf(items: seq<Pending>): set<Path>
  {
    set i | 0 <= i < |items| :: items[i].path
  }

  function TotalSize(items: seq<Pending>): nat
  {
    if items == [] then 0 else TotalSize(items[..|items| - 1]) + items[|items| - 1].size
  }

  /** Largest first. */
  predicate SortedBySize(items: seq<Pending>)
  {
    forall i, j :: 0 <= i < j < |items| ==> items[i].size >= items[j].size
  }

  const BatchSize := 100

  function Flatten<T>(bs: seq<seq<T>>): seq<T>
  {
    if bs == [] then [] else Flatten(bs[..|bs| - 1]) + bs[|bs| - 1]
  }

  lemma FlattenAppend<T>(bs: seq<seq<T>>, b: seq<T>)
    ensures Flatten(bs + [b]) == Flatten(bs) + b
  {
    assert (bs + [b])[..|bs|] == bs;
  }

  lemma {:induction false} FlattenPrepend<T>(b: seq<T>, bs: seq<seq<T>>)
    ensures Flatten([b] + bs) == b + Flatten(bs)
    decreases |bs|
  {
    if bs == [] {
      assert [b] + bs == [] + [b];
      FlattenAppend([], b);
    } else {
      var init, last := bs[..|bs| - 1], bs[|bs| - 1];
      assert bs == init + [last];
      assert [b] + bs == ([b] + init) + [last];
      FlattenAppend([b] + init, last);
      FlattenPrepend(b, init);
      FlattenAppend(init, last);
    }
  }

  /** `files[i:i + size]` for `i` in `range(0, len(files), size)`. */
  function Batches<T>(s: seq<T>, size: nat): (bs: seq<seq<T>>)
    requires 0 < size
    ensures Flatten(bs) == s
    ensures forall i :: 0 <= i < |bs| ==> 0 < |bs[i]| <= size
    ensures forall i :: 0 <= i < |bs| - 1 ==> |bs[i]| == size
    decreases |s|
  {
    if s == [] then []
    else if |s| <= size then (FlattenAppend([], s); [s])
    else
      var rest := Batches(s[size..], size);
      FlattenPrepend(s[..size], rest);
      assert s[..size] + s[size..] == s;
      [s[..size]] + rest
  }

  // ---------------------------------------------------------------------------
  // The archive a compression produces

  /** The entries written for the collectable files among `paths`. */
  function MembersFor(fs: FileSystem, root: Path, sizes: map<Path, nat>, paths: set<Path>): (m: map<Path, Member>)
    ensures forall r :: r in m <==> root + r in paths * Collectable(fs, root, sizes)
    ensures forall r :: r in m ==> m[r] == FileEntry(fs.files[root + r], sizes[root + r], true)
  {
    CollectableRejoin(fs, root, sizes, paths * Collectable(fs, root, sizes));
    map r | r in RelPaths(paths * Collectable(fs, root, sizes), root) :: FileEntry(fs.files[root + r], sizes[root + r], true)
  }

  lemma CollectableRejoin(fs: FileSystem, root: Path, sizes: map<Path, nat>, paths: set<Path>)
    requires paths <= Collectable(fs, root, sizes)
    ensures forall r :: root + r in paths ==> r in RelPaths(paths, root)
    ensures forall r :: r in RelPaths(paths, root) ==> root + r in fs.files && root + r in sizes
  {
    forall r | root + r in paths ensures r in RelPaths(paths, root) {
      UnderAppend(root, r);
    }
  }

  /** The archive of `root`: one intact entry per collectable file that could
      be read, under its path relative to `root`, holding that file's data. */
  function Compressed(fs: FileSystem, root: Path, sizes: map<Path, nat>, readFails: set<Path>): map<Path, Member>
  {
    MembersFor(fs, root, sizes, Collectable(fs, root, sizes) - readFails)
  }

  lemma MembersForStep(fs: FileSystem, root: Path, sizes: map<Path, nat>, paths: set<Path>, p: Path)
    requires p in Collectable(fs, root, sizes)
    ensures MembersFor(fs, root, sizes, paths + {p})
      == MembersFor(fs, root, sizes, paths)[p[|root|..] := FileEntry(fs.files[p], sizes[p], true)]
  {
    Rejoin(root);
    UnderAppend(root, p[|root|..]);
  }

  // ---------------------------------------------------------------------------
  // Extraction

  /** The folder an entry lies in, relative to the extraction root. */
  function Parent(r: Path): Path
  {
    if r == [] then [] else r[..|r| - 1]
  }

  /** The tree an archive's entries make below the extraction root: every
      directory entry; the folder of every file entry, which `zipfile.extract`
      makes before it writes, whether or not the write then succeeds; and
      every intact file entry that could be written. */
  function Extractable(members: map<Path, Member>, writeFails: set<Path>): FileSystem
  {
    FileSystem((set r | r in members && members[r].DirEntry?)
                 + (set r | r in members && members[r].FileEntry? :: Parent(r)),
               map r | r in members && members[r].FileEntry? && members[r].intact && r !in writeFails
                 :: members[r].content)
  }

  /** `fs` after extracting `members` into `dir` (which `os.makedirs` made first). */
  function ExtractInto(fs: FileSystem, dir: Path, members: map<Path, Member>, writeFails: set<Path>): FileSystem
  {
    Overlay(MakeDirs(fs, dir), Graft(Extractable(members, writeFails), dir))
  }

  /** Every file entry's folder exists after extraction, whether or not the
      entry itself could be written or passed its check. */
  lemma ExtractMakesFolders(fs: FileSystem, dir: Path, members: map<Path, Member>, writeFails: set<Path>, r: Path)
    requires r in members && members[r].FileEntry?
    ensures Exists(ExtractInto(fs, dir, members, writeFails), dir + Parent(r))
  {
    var d := dir + Parent(r);
    assert Parent(r) in Extractable(members, writeFails).dirs;
    assert d in Graft(Extractable(members, writeFails), dir).dirs;
    assert d[..|d|] == d;
  }

  function RestrictMembers(members: map<Path, Member>, keys: set<Path>): map<Path, Member>
  {
    map r | r in members && r in keys :: members[r]
  }

  lemma RestrictAll(members: map<Path, Member>, keys: set<Path>)
    requires keys == members.Keys
    ensures RestrictMembers(members, keys) == members
  {
  }

  /** Moving one key from those to do to those done keeps the partition. */
  lemma MoveOne<T>(all: set<T>, todo: set<T>, done: set<T>, x: T)
    requires x in todo && todo + done == all && todo !! done
    ensures (todo - {x}) + (done + {x}) == all && (todo - {x}) !! (done + {x})
    ensures |todo - {x}| == |todo| - 1 && |done + {x}| == |done| + 1
  {
  }

  lemma TicksStep(base: int, span: nat, total: nat, k: nat)
    requires k < total
    ensures Ticks(base, span, total)[..k + 1] == Ticks(base, span, total)[..k] + [Tick(base, span, k + 1, total)]
  {
  }

  lemma ExtractNothing(fs: FileSystem, dir: Path, members: map<Path, Member>, writeFails: set<Path>)
    ensures ExtractInto(fs, dir, RestrictMembers(members, {}), writeFails) == MakeDirs(fs, dir)
  {
    assert RestrictMembers(members, {}) == map[];
    assert Extractable(map[], writeFails) == Empty;
    assert Graft(Empty, dir) == Empty;
    OverlayEmpty(MakeDirs(fs, dir));
  }

  lemma ExtractStep(fs: FileSystem, dir: Path, members: map<Path, Member>, done: set<Path>,
                    writeFails: set<Path>, r: Path)
    requires r in members && r !in done
    ensures var before := ExtractInto(fs, dir, RestrictMembers(members, done), writeFails);
      var after := ExtractInto(fs, dir, RestrictMembers(members, done + {r}), writeFails);
      && (members[r].DirEntry? ==> after == MakeDirs(before, dir + r))
      && (members[r].FileEntry? && members[r].intact && r !in writeFails ==>
            after == WriteFile(MakeDirs(before, dir + Parent(r)), dir + r, members[r].content))
      && (members[r].FileEntry? && (!members[r].intact || r in writeFails) ==>
            after == MakeDirs(before, dir + Parent(r)))
  {
    var t0 := Extractable(RestrictMembers(members, done), writeFails);
    var t1 := Extractable(RestrictMembers(members, done + {r}), writeFails);
    ExtractableStep(members, done, writeFails, r);
    if members[r].DirEntry? {
      OverlayGraftDir(MakeDirs(fs, dir), t0, dir, r);
    } else if members[r].intact && r !in writeFails {
      OverlayGraftDir(MakeDirs(fs, dir), t0, dir, Parent(r));
      OverlayGraftFile(MakeDirs(fs, dir), FileSystem(t0.dirs + {Parent(r)}, t0.files), dir, r, members[r].content);
    } else {
      OverlayGraftDir(MakeDirs(fs, dir), t0, dir, Parent(r));
    }
  }

  lemma OverlayGraftDir(a: FileSystem, t: FileSystem, dir: Path, r: Path)
    ensures Overlay(a, Graft(FileSystem(t.dirs + {r}, t.files), dir)) == MakeDirs(Overlay(a, Graft(t, dir)), dir + r)
  {
    GraftAddDir(t, dir, r);
  }

  lemma OverlayGraftFile(a: FileSystem, t: FileSystem, dir: Path, r: Path, c: Content)
    ensures Overlay(a, Graft(FileSystem(t.dirs, t.files[r := c]), dir)) == WriteFile(Overlay(a, Graft(t, dir)), dir + r, c)
  {
    GraftAddFile(t, dir, r, c);
    var g := Graft(t, dir);
    UnionUpdate(a.files, g.files, dir + r, c);
  }

  lemma UnionUpdate<K, V>(a: map<K, V>, b: map<K, V>, k: K, v: V)
    ensures a + b[k := v] == (a + b)[k := v]
  {
  }

  /** What one more entry adds to the extracted tree. */
  lemma ExtractableStep(members: map<Path, Member>, done: set<Path>, writeFails: set<Path>, r: Path)
    requires r in members && r !in done
    ensures var t0 := Extractable(RestrictMembers(members, done), writeFails);
      var t1 := Extractable(RestrictMembers(members, done + {r}), writeFails);
      && (members[r].DirEntry? ==> t1 == FileSystem(t0.dirs + {r}, t0.files))
      && (members[r].FileEntry? && members[r].intact && r !in writeFails ==>
            t1 == FileSystem(t0.dirs + {Parent(r)}, t0.files[r := members[r].content]))
      && (members[r].FileEntry? && (!members[r].intact || r in writeFails) ==>
            t1 == FileSystem(t0.dirs + {Parent(r)}, t0.files))
  {
    var m0, m1 := RestrictMembers(members, done), RestrictMembers(members, done + {r});
    assert m1 == m0[r := members[r]];
    var t0, t1 := Extractable(m0, writeFails), Extractable(m1, writeFails);
    if members[r].DirEntry? {
      assert t1.dirs == t0.dirs + {r};
      assert t1.files == t0.files;
    } else if members[r].intact && r !in writeFails {
      assert t1.dirs == t0.dirs + {Parent(r)};
      assert t1.files == t0.files[r := members[r].content];
    } else {
      assert t1.dirs == t0.dirs + {Parent(r)};
      assert t1.files == t0.files;
    }
  }

  // ---------------------------------------------------------------------------
  // Reading archives

  /** What `list_archive_contents` reports for one entry (the compressed size
      and the DOS timestamp belong to the ZIP encoding and are left out). */
  datatype EntryInfo = EntryInfo(filename: Path, size: nat, isDirectory: bool)

  /** An entry passes the integrity check: a directory, or a file whose checksum matches. */
  predicate Verifies(m: Member)
  {
    m.FileEntry? ==> m.intact
  }

  function InfoOf(name: Path, m: Member): EntryInfo
  {
    match m
    case FileEntry(_, size, _) => EntryInfo(name, size, false)
    case DirEntry => EntryInfo(name, 0, true)
  }

  /** The ZIP archive stored at `path`, if `path` is a ZIP file. */
  function ArchiveAt(fs: FileSystem, path: Path): Option<map<Path, Member>>
  {
    if path in fs.files && fs.files[path].ZipArchive? then Some(fs.files[path].members) else None
  }

  class CompressionManager {
    const fastCompression: bool

    constructor(fastCompression: bool)
      ensures this.fastCompression == fastCompression
    {
      this.fastCompression := fastCompression;
    }

    /** `compresslevel`: 3 in fast mode, the maximum 9 otherwise. */
    function CompressionLevel(): (level: int)
      ensures fastCompression ==> level == 3
      ensures !fastCompression ==> level == 9
    {
      if fastCompression then 3 else 9
    }

    /** `compress_directory`: reports 70, then compresses with `_zipfile_compression`. */
    method CompressDirectory(fs: FileSystem, tempDir: Path, archivePath: Path, sizes: map<Path, nat>,
                             readFails: set<Path>, openOk: bool)
      returns (fs': FileSystem, ok: bool, progress: seq<int>)
      ensures var files := Collectable(fs, tempDir, sizes);
        && (files == {} ==> ok && fs' == fs && progress == [70, 75])
        && (files != {} && !openOk ==> !ok && fs' == fs && progress == [70, 75, 78])
        && (files != {} && openOk ==>
              && ok
              && fs' == WriteFile(fs, archivePath, ZipArchive(Compressed(fs, tempDir, sizes, readFails)))
              && progress == [70, 75, 78] + Ticks(78, 7, |files|) + [85])
      ensures NonDecreasing(progress) && forall i :: 0 <= i < |progress| ==> 70 <= progress[i] <= 85
    {
      var rest;
      fs', ok, rest := ZipfileCompression(fs, tempDir, archivePath, sizes, readFails, openOk);
      progress := [70] + rest;
      ghost var n := |Collectable(fs, tempDir, sizes)|;
      ProgressOfCompression(n);
      assert progress == [70, 75] || progress == [70, 75, 78] || progress == [70, 75, 78] + Ticks(78, 7, n) + [85];
    }

    /** `_zipfile_compression`.  Nothing collected: success, and no archive is
        opened.  Otherwise the files go into the archive largest first, in
        batches of 100; a file that cannot be read is counted in `failed` and
        left out, and does not make the result false.  Only an archive that
        cannot be created does. */
    method ZipfileCompression(fs: FileSystem, tempDir: Path, archivePath: Path, sizes: map<Path, nat>,
                              readFails: set<Path>, openOk: bool)
      returns (fs': FileSystem, ok: bool, progress: seq<int>)
      ensures var files := Collectable(fs, tempDir, sizes);
        && (files == {} ==> ok && fs' == fs && progress == [75])
        && (files != {} && !openOk ==> !ok && fs' == fs && progress == [75, 78])
        && (files != {} && openOk ==>
              && ok
              && fs' == WriteFile(fs, archivePath, ZipArchive(Compressed(fs, tempDir, sizes, readFails)))
              && progress == [75, 78] + Ticks(78, 7, |files|) + [85])
    {
      progress := [75];
      fs', ok := fs, true;
      var collected, total := CollectFiles(fs, tempDir, sizes);
      if |collected| == 0 {
        return;
      }
      var sorted := SortBySize(collected);
      SamePaths(collected, sorted);
      progress := progress + [78];
      if !openOk {
        ok := false;
        return;
      }
      var members, ticks, failed := CompressFiles(fs, tempDir, sizes, sorted, readFails);
      progress := progress + ticks + [85];
      fs' := WriteFile(fs, archivePath, ZipArchive(members));
    }

    /** The `os.walk` loop: every collectable file once, as
        `(path, relpath, size)`, and the sum of their sizes. */
    method CollectFiles(fs: FileSystem, root: Path, sizes: map<Path, nat>)
      returns (files: seq<Pending>, total: nat)
      ensures PathsOf(files) == Collectable(fs, root, sizes)
      ensures |files| == |Collectable(fs, root, sizes)|
      ensures forall i :: 0 <= i < |files| ==> WellFormed(fs, root, sizes, files[i])
      ensures total == TotalSize(files)
    {
      var all := Collectable(fs, root, sizes);
      var todo := all;
      files, total := [], 0;
      while todo != {}
        invariant todo <= all && PathsOf(files) == all - todo
        invariant |files| + |todo| == |all|
        invariant forall i :: 0 <= i < |files| ==> WellFormed(fs, root, sizes, files[i])
        invariant total == TotalSize(files)
        decreases |todo|
      {
        files, total, todo := CollectOne(fs, root, sizes, all, todo, files, total);
      }
    }

    /** One file of the walk: any file not yet listed joins the list. */
    method CollectOne(fs: FileSystem, root: Path, sizes: map<Path, nat>, all: set<Path>, todo: set<Path>,
                      files: seq<Pending>, total: nat)
      returns (files': seq<Pending>, total': nat, todo': set<Path>)
      requires all == Collectable(fs, root, sizes) && todo != {}
      requires todo <= all && PathsOf(files) == all - todo && |files| + |todo| == |all|
      requires forall i :: 0 <= i < |files| ==> WellFormed(fs, root, sizes, files[i])
      requires total == TotalSize(files)
      ensures todo' <= all && PathsOf(files') == all - todo' && |files'| + |todo'| == |all|
      ensures forall i :: 0 <= i < |files'| ==> WellFormed(fs, root, sizes, files'[i])
      ensures total' == TotalSize(files') && |todo'| < |todo|
    {
      var p :| p in todo;
      assert |p| > |root| && p in sizes by {
        assert p in all;
      }
      var item := Pending(p, p[|root|..], sizes[p]);
      CollectStep(files, item);
      CollectCounts(all, todo, files, item);
      files' := files + [item];
      total' := total + item.size;
      todo' := todo - {p};
      forall i | 0 <= i < |files'| ensures WellFormed(fs, root, sizes, files'[i]) {
        if i < |files| {
          assert files'[i] == files[i];
        } else {
          assert p in all;
        }
      }
    }

    /** `files_to_compress.sort(key=size, reverse=True)`, as repeated insertion. */
    method SortBySize(files: seq<Pending>) returns (sorted: seq<Pending>)
      ensures SortedBySize(sorted) && multiset(sorted) == multiset(files)
    {
      sorted := [];
      for i := 0 to |files|
        invariant SortedBySize(sorted) && multiset(sorted) == multiset(files[..i])
      {
        var x := files[i];
        var j := InsertionPoint(sorted, x);
        InsertKeepsSorted(sorted, j, x);
        assert files[..i + 1] == files[..i] + [x];
        sorted := sorted[..j] + [x] + sorted[j..];
      }
      assert files[..|files|] == files;
    }

    /** Where `x` goes: after every entry at least as large, so equal sizes keep
        their order. */
    method InsertionPoint(sorted: seq<Pending>, x: Pending) returns (j: nat)
      requires SortedBySize(sorted)
      ensures j <= |sorted|
      ensures forall k :: 0 <= k < j ==> sorted[k].size >= x.size
      ensures j < |sorted| ==> sorted[j].size < x.size
    {
      j := 0;
      while j < |sorted| && sorted[j].size >= x.size
        invariant 0 <= j <= |sorted|
        invariant forall k :: 0 <= k < j ==> sorted[k].size >= x.size
      {
        j := j + 1;
      }
    }

    /** The archive, the progress and the failure count once the first `k`
        files of `sorted` have been through `compress_file`. */
    predicate CompressedUpTo(fs: FileSystem, root: Path, sizes: map<Path, nat>, sorted: seq<Pending>, readFails: set<Path>,
                             k: nat, members: map<Path, Member>, ticks: seq<int>, failed: nat)
      requires k <= |sorted|
    {
      && members == MembersFor(fs, root, sizes, PathsOf(sorted[..k]) - readFails)
      && ticks == Ticks(78, 7, |sorted|)[..k]
      && failed == FailedCount(sorted[..k], readFails)
    }

    /** The batch loop: each file of each batch in turn goes through
        `compress_file`, and the count of finished files advances the progress. */
    method CompressFiles(fs: FileSystem, root: Path, sizes: map<Path, nat>, sorted: seq<Pending>, readFails: set<Path>)
      returns (members: map<Path, Member>, ticks: seq<int>, failed: nat)
      requires forall i :: 0 <= i < |sorted| ==> WellFormed(fs, root, sizes, sorted[i])
      ensures members == MembersFor(fs, root, sizes, PathsOf(sorted) - readFails)
      ensures ticks == Ticks(78, 7, |sorted|)
      ensures failed == FailedCount(sorted, readFails)
    {
      var n := |sorted|;
      members, ticks, failed := map[], [], 0;
      CompressNothing(fs, root, sizes, sorted, readFails);
      var i: nat := 0;
      while i < n
        invariant i <= n
        invariant CompressedUpTo(fs, root, sizes, sorted, readFails, i, members, ticks, failed)
        decreases n - i
      {
        // `files_to_compress[i:i + batch_size]`; the step after the last
        // batch leaves the loop either way, so it stops at the end.
        var end := Min(i + BatchSize, n);
        members, ticks, failed := CompressBatch(fs, root, sizes, sorted, readFails, i, end, members, ticks, failed);
        i := end;
      }
      assert sorted[..i] == sorted;
    }

    /** One batch, `sorted[start..end]`: each of its files in turn goes
        through `compress_file`, and the count of finished files advances the
        progress. */
    method CompressBatch(fs: FileSystem, root: Path, sizes: map<Path, nat>, sorted: seq<Pending>, readFails: set<Path>,
                         start: nat, end: nat, members: map<Path, Member>, ticks: seq<int>, failed: nat)
      returns (members': map<Path, Member>, ticks': seq<int>, failed': nat)
      requires forall i :: 0 <= i < |sorted| ==> WellFormed(fs, root, sizes, sorted[i])
      requires start <= end <= |sorted|
      requires CompressedUpTo(fs, root, sizes, sorted, readFails, start, members, ticks, failed)
      ensures CompressedUpTo(fs, root, sizes, sorted, readFails, end, members', ticks', failed')
    {
      members', ticks', failed' := members, ticks, failed;
      for k := start to end
        invariant CompressedUpTo(fs, root, sizes, sorted, readFails, k, members', ticks', failed')
      {
        members', ticks', failed' := CompressNext(fs, root, sizes, sorted, readFails, k, members', ticks', failed');
      }
    }

    /** The file `sorted[k]` through `compress_file`: into the archive, or
        counted as failed, and the progress advanced either way. */
    method CompressNext(fs: FileSystem, root: Path, sizes: map<Path, nat>, sorted: seq<Pending>, readFails: set<Path>,
                        k: nat, members: map<Path, Member>, ticks: seq<int>, failed: nat)
      returns (members': map<Path, Member>, ticks': seq<int>, failed': nat)
      requires k < |sorted| && WellFormed(fs, root, sizes, sorted[k])
      requires CompressedUpTo(fs, root, sizes, sorted, readFails, k, members, ticks, failed)
      ensures CompressedUpTo(fs, root, sizes, sorted, readFails, k + 1, members', ticks', failed')
    {
      CompressStep(fs, root, sizes, sorted, readFails, k);
      TicksStep(78, 7, |sorted|, k);
      var success;
      members', success := CompressFile(fs, sorted[k], readFails, members);
      failed' := if success then failed else failed + 1;
      ticks' := ticks + [Tick(78, 7, k + 1, |sorted|)];
    }

    /** `compress_file`: read the file and add it to the archive under its
        relative name, or report failure and leave the archive as it was. */
    method CompressFile(fs: FileSystem, item: Pending, readFails: set<Path>, members: map<Path, Member>)
      returns (members': map<Path, Member>, success: bool)
      requires item.path in fs.files
      ensures success <==> item.path !in readFails
      ensures success ==> members' == members[item.arcName := FileEntry(fs.files[item.path], item.size, true)]
      ensures !success ==> members' == members
    {
      if item.path in readFails {
        return members, false;
      }
      var data := fs.files[item.path];
      members' := members[item.arcName := FileEntry(data, item.size, true)];
      success := true;
    }

    /** `decompress_archive`.  A missing archive: false, before any progress or
        directory.  Otherwise 10, the extraction directory, then (for a ZIP file)
        20, one value per entry, 90 and true — whatever entries failed.
        `writeFails` names the entries that cannot be written. */
    method DecompressArchive(fs: FileSystem, archivePath: Path, extractDir: Path, makeDirOk: bool,
                             writeFails: set<Path>)
      returns (fs': FileSystem, ok: bool, progress: seq<int>)
      ensures !Exists(fs, archivePath) ==> !ok && fs' == fs && progress == []
      ensures Exists(fs, archivePath) && !makeDirOk ==> !ok && fs' == fs && progress == [10]
      ensures Exists(fs, archivePath) && makeDirOk && ArchiveAt(fs, archivePath).None? ==>
        !ok && fs' == MakeDirs(fs, extractDir) && progress == [10]
      ensures Exists(fs, archivePath) && makeDirOk && ArchiveAt(fs, archivePath).Some? ==>
        var members := ArchiveAt(fs, archivePath).value;
        && ok
        && fs' == ExtractInto(fs, extractDir, members, writeFails)
        && progress == [10, 20] + Ticks(20, 70, |members|) + [90]
      ensures NonDecreasing(progress) && forall i :: 0 <= i < |progress| ==> 10 <= progress[i] <= 90
    {
      fs', ok, progress := fs, false, [];
      if !Exists(fs, archivePath) {
        return;
      }
      progress := [10];
      if !makeDirOk {
        return;
      }
      fs' := MakeDirs(fs, extractDir);
      if archivePath !in fs.files || !fs.files[archivePath].ZipArchive? {
        return;
      }
      var members := fs.files[archivePath].members;
      progress := progress + [20];
      var ticks;
      fs', ticks := ExtractMembers(fs, extractDir, members, writeFails);
      progress := progress + ticks + [90];
      ok := true;
      ProgressOfDecompression(|members|);
    }

    /** The extraction pool's work, one entry at a time: a directory entry makes
        its directory, a file entry is written unless its check fails or the
        write does; either way the count advances the progress. */
    method ExtractMembers(fs: FileSystem, extractDir: Path, members: map<Path, Member>, writeFails: set<Path>)
      returns (fs': FileSystem, ticks: seq<int>)
      ensures fs' == ExtractInto(fs, extractDir, members, writeFails)
      ensures ticks == Ticks(20, 70, |members|)
    {
      var total := |members|;
      var todo, done := members.Keys, {};
      ticks := [];
      fs' := MakeDirs(fs, extractDir);
      ExtractNothing(fs, extractDir, members, writeFails);
      while todo != {}
        invariant todo + done == members.Keys && todo !! done
        invariant |todo| + |done| == total
        invariant ExtractedSoFar(fs, extractDir, members, writeFails, done, fs', ticks)
        decreases |todo|
      {
        todo, done, fs', ticks := ExtractNext(fs, extractDir, members, writeFails, todo, done, fs', ticks);
      }
      RestrictAll(members, done);
    }

    /** The file system and the progress once the members `done` are out. */
    predicate ExtractedSoFar(fs: FileSystem, extractDir: Path, members: map<Path, Member>, writeFails: set<Path>,
                             done: set<Path>, fs': FileSystem, ticks: seq<int>)
      requires |done| <= |members|
    {
      && fs' == ExtractInto(fs, extractDir, RestrictMembers(members, done), writeFails)
      && ticks == Ticks(20, 70, |members|)[..|done|]
    }

    /** One member of the loop, any of those not yet out, through `extract_file`. */
    method ExtractNext(fs: FileSystem, extractDir: Path, members: map<Path, Member>, writeFails: set<Path>,
                       todo: set<Path>, done: set<Path>, current: FileSystem, ticks: seq<int>)
      returns (todo': set<Path>, done': set<Path>, fs': FileSystem, ticks': seq<int>)
      requires todo != {} && todo + done == members.Keys && todo !! done && |todo| + |done| == |members|
      requires ExtractedSoFar(fs, extractDir, members, writeFails, done, current, ticks)
      ensures todo' + done' == members.Keys && todo' !! done' && |todo'| + |done'| == |members|
      ensures ExtractedSoFar(fs, extractDir, members, writeFails, done', fs', ticks')
      ensures |todo'| < |todo|
    {
      var r :| r in todo;
      ExtractStep(fs, extractDir, members, done, writeFails, r);
      TicksStep(20, 70, |members|, |done|);
      var success;
      fs', success := ExtractFile(current, extractDir, r, members[r], writeFails);
      ticks' := ticks + [Tick(20, 70, |done| + 1, |members|)];
      todo', done' := todo - {r}, done + {r};
      MoveOne(members.Keys, todo, done, r);
    }

    /** `extract_file`: a directory entry makes its directory; a file entry
        first gets its folder made below `extractDir`, then is written there
        unless its check fails or the write does. */
    method ExtractFile(fs: FileSystem, extractDir: Path, r: Path, m: Member, writeFails: set<Path>)
      returns (fs': FileSystem, success: bool)
      ensures m.DirEntry? ==> success && fs' == MakeDirs(fs, extractDir + r)
      ensures m.FileEntry? && m.intact && r !in writeFails ==>
        success && fs' == WriteFile(MakeDirs(fs, extractDir + Parent(r)), extractDir + r, m.content)
      ensures m.FileEntry? && (!m.intact || r in writeFails) ==> !success && fs' == MakeDirs(fs, extractDir + Parent(r))
    {
      match m {
        case DirEntry =>
          fs', success := MakeDirs(fs, extractDir + r), true;
        case FileEntry(content, _, intact) =>
          var folder := MakeDirs(fs, extractDir + Parent(r));
          if intact && r !in writeFails {
            fs', success := WriteFile(folder, extractDir + r, content), true;
          } else {
            fs', success := folder, false;
          }
      }
    }

    /** `validate_archive`: true exactly for an existing ZIP file whose file
        entries all pass their integrity check (`testzip` finds no bad entry);
        any other outcome is false rather than an error. */
    function ValidateArchive(fs: FileSystem, archivePath: Path): (valid: bool)
      ensures valid <==> ArchiveAt(fs, archivePath).Some? &&
                         forall r :: r in ArchiveAt(fs, archivePath).value ==> Verifies(ArchiveAt(fs, archivePath).value[r])
      ensures valid ==> Exists(fs, archivePath)
    {
      assert archivePath in fs.files ==> Under(archivePath, archivePath);
      if !Exists(fs, archivePath) then false
      else if archivePath !in fs.files || !fs.files[archivePath].ZipArchive? then false
      else forall r :: r in fs.files[archivePath].members ==> Verifies(fs.files[archivePath].members[r])
    }

    /** An archive just written by a compression passes validation. */
    lemma CompressedArchiveValidates(fs: FileSystem, root: Path, sizes: map<Path, nat>, readFails: set<Path>,
                                     archivePath: Path)
      ensures ValidateArchive(WriteFile(fs, archivePath, ZipArchive(Compressed(fs, root, sizes, readFails))), archivePath)
    {
    }

    /** `list_archive_contents`: none for a missing path or a file that is not a
        ZIP archive; otherwise one record per entry. */
    method ListArchiveContents(fs: FileSystem, archivePath: Path) returns (contents: Option<seq<EntryInfo>>)
      ensures contents.None? <==> ArchiveAt(fs, archivePath).None?
      ensures contents.Some? ==>
        var members := ArchiveAt(fs, archivePath).value;
        && |contents.value| == |members|
        && (forall i :: 0 <= i < |contents.value| ==>
              contents.value[i].filename in members
              && contents.value[i] == InfoOf(contents.value[i].filename, members[contents.value[i].filename]))
        && (forall r :: r in members ==> exists i :: 0 <= i < |contents.value| && contents.value[i].filename == r)
        && (forall i, j :: 0 <= i < j < |contents.value| ==> contents.value[i].filename != contents.value[j].filename)
    {
      if !Exists(fs, archivePath) || archivePath !in fs.files || !fs.files[archivePath].ZipArchive? {
        return None;
      }
      var members := fs.files[archivePath].members;
      var records: seq<EntryInfo> := [];
      var todo := members.Keys;
      ghost var position: map<Path, nat> := map[];
      while todo != {}
        invariant ListedSoFar(members, todo, records, position)
        decreases |todo|
      {
        records, todo, position := ListNext(members, todo, records, position);
      }
      assert forall r :: r in members ==> records[position[r]].filename == r;
      contents := Some(records);
    }
  }

  /** The records `infolist` has produced while the members `todo` are still
      to come: one per member listed, none twice, and where each one is. */
  ghost predicate ListedSoFar(members: map<Path, Member>, todo: set<Path>, records: seq<EntryInfo>, position: map<Path, nat>)
  {
    && todo <= members.Keys
    && |records| + |todo| == |members|
    && (forall i :: 0 <= i < |records| ==>
          records[i].filename in members - todo && records[i] == InfoOf(records[i].filename, members[records[i].filename]))
    && (forall r :: r in members.Keys - todo ==>
          r in position && position[r] < |records| && records[position[r]].filename == r)
    && (forall i, j :: 0 <= i < j < |records| ==> records[i].filename != records[j].filename)
  }

  /** One more record, for any member not yet listed. */
  method ListNext(members: map<Path, Member>, todo: set<Path>, records: seq<EntryInfo>, ghost position: map<Path, nat>)
    returns (records': seq<EntryInfo>, todo': set<Path>, ghost position': map<Path, nat>)
    requires todo != {} && ListedSoFar(members, todo, records, position)
    ensures ListedSoFar(members, todo', records', position') && |todo'| < |todo|
  {
    var r :| r in todo;
    position' := position[r := |records|];
    records' := records + [InfoOf(r, members[r])];
    todo' := todo - {r};
  }

  lemma CollectStep(files: seq<Pending>, item: Pending)
    ensures PathsOf(files + [item]) == PathsOf(files) + {item.path}
    ensures TotalSize(files + [item]) == TotalSize(files) + item.size
    ensures forall i :: 0 <= i < |files| ==> (files + [item])[i] == files[i]
  {
    assert (files + [item])[..|files|] == files;
  }

  /** Listing one more file of those still to do keeps the bookkeeping. */
  lemma CollectCounts(all: set<Path>, todo: set<Path>, files: seq<Pending>, item: Pending)
    requires item.path in todo && todo <= all
    requires PathsOf(files) == all - todo && |files| + |todo| == |all|
    ensures PathsOf(files + [item]) == all - (todo - {item.path})
    ensures |files + [item]| + |todo - {item.path}| == |all|
  {
    CollectStep(files, item);
  }

  /** A reordering keeps the files and their number. */
  lemma SamePaths(a: seq<Pending>, b: seq<Pending>)
    requires multiset(a) == multiset(b)
    ensures PathsOf(a) == PathsOf(b) && |a| == |b|
    ensures forall i :: 0 <= i < |b| ==> b[i] in a
  {
    assert |multiset(a)| == |multiset(b)|;
    forall i | 0 <= i < |b| ensures b[i] in a {
      assert b[i] in multiset(b);
    }
    forall p | p in PathsOf(a) ensures p in PathsOf(b) {
      var i :| 0 <= i < |a| && a[i].path == p;
      assert a[i] in multiset(a);
      var j :| 0 <= j < |b| && b[j] == a[i];
    }
  }

  lemma PathsOfStep(s: seq<Pending>, k: nat)
    requires k < |s|
    ensures PathsOf(s[..k + 1]) == PathsOf(s[..k]) + {s[k].path}
  {
    assert s[..k + 1][k] == s[k];
  }

  /** How many of `items` cannot be read. */
  function FailedCount(items: seq<Pending>, readFails: set<Path>): nat
  {
    if items == [] then 0
    else FailedCount(items[..|items| - 1], readFails) + (if items[|items| - 1].path in readFails then 1 else 0)
  }

  lemma CompressNothing(fs: FileSystem, root: Path, sizes: map<Path, nat>, sorted: seq<Pending>, readFails: set<Path>)
    ensures MembersFor(fs, root, sizes, PathsOf(sorted[..0]) - readFails) == map[]
    ensures FailedCount(sorted[..0], readFails) == 0
  {
    assert PathsOf(sorted[..0]) == {};
  }

  /** What one more file does to the archive, the failure count and the progress. */
  lemma CompressStep(fs: FileSystem, root: Path, sizes: map<Path, nat>, sorted: seq<Pending>, readFails: set<Path>, k: nat)
    requires k < |sorted| && WellFormed(fs, root, sizes, sorted[k])
    ensures var item := sorted[k];
      var before := MembersFor(fs, root, sizes, PathsOf(sorted[..k]) - readFails);
      var after := MembersFor(fs, root, sizes, PathsOf(sorted[..k + 1]) - readFails);
      && (item.path in readFails ==> after == before)
      && (item.path !in readFails ==> after == before[item.arcName := FileEntry(fs.files[item.path], item.size, true)])
      && FailedCount(sorted[..k + 1], readFails)
           == FailedCount(sorted[..k], readFails) + (if item.path in readFails then 1 else 0)
      && Ticks(78, 7, |sorted|)[..k + 1] == Ticks(78, 7, |sorted|)[..k] + [Tick(78, 7, k + 1, |sorted|)]
  {
    var item := sorted[k];
    PathsOfStep(sorted, k);
    assert sorted[..k + 1][..k] == sorted[..k];
    if item.path !in readFails {
      MembersForStep(fs, root, sizes, PathsOf(sorted[..k]) - readFails, item.path);
      assert PathsOf(sorted[..k + 1]) - readFails == (PathsOf(sorted[..k]) - readFails) + {item.path};
    } else {
      assert PathsOf(sorted[..k + 1]) - readFails == PathsOf(sorted[..k]) - readFails;
    }
  }

  /** The batch loop's slice at `i`, `s[i:i + size]`, is the first batch of
      what is left, and the batches after it are those of the rest: stepping
      `i` by `size` walks exactly `Batches(s, size)`. */
  lemma BatchesFrom<T>(s: seq<T>, size: nat, i: nat)
    requires 0 < size && i < |s|
    ensures var end := Min(i + size, |s|);
      Batches(s[i..], size) == [s[i..end]] + Batches(s[end..], size)
  {
    var end := Min(i + size, |s|);
    var t := s[i..];
    if |t| > size {
      assert t[size..] == s[end..];
      assert t[..size] == s[i..end];
      assert Batches(t, size) == [t[..size]] + Batches(t[size..], size);
    } else {
      assert s[end..] == [] && s[i..end] == t;
      assert Batches(s[end..], size) == [];
      assert Batches(t, size) == [t];
    }
  }

  /** Inserting `x` after the entries at least as large keeps the order largest first. */
  lemma InsertKeepsSorted(s: seq<Pending>, j: nat, x: Pending)
    requires SortedBySize(s) && j <= |s|
    requires forall k :: 0 <= k < j ==> s[k].size >= x.size
    requires j < |s| ==> s[j].size < x.size
    ensures SortedBySize(s[..j] + [x] + s[j..])
    ensures multiset(s[..j] + [x] + s[j..]) == multiset(s) + multiset{x}
  {
    InsertSorted(s, j, x);
    InsertMultiset(s, j, x);
  }

  lemma InsertSorted(s: seq<Pending>, j: nat, x: Pending)
    requires SortedBySize(s) && j <= |s|
    requires forall k :: 0 <= k < j ==> s[k].size >= x.size
    requires j < |s| ==> s[j].size < x.size
    ensures SortedBySize(s[..j] + [x] + s[j..])
  {
    var t := s[..j] + [x] + s[j..];
    forall a, b | 0 <= a < b < |t| ensures t[a].size >= t[b].size {
      if b < j {
        assert t[a] == s[a] && t[b] == s[b];
      } else if b == j {
        assert t[a] == s[a];
      } else if a < j {
        assert t[a] == s[a] && t[b] == s[b - 1];
      } else if a == j {
        assert t[b] == s[b - 1];
      } else {
        assert t[a] == s[a - 1] && t[b] == s[b - 1];
      }
    }
  }

  lemma InsertMultiset<T>(s: seq<T>, j: nat, x: T)
    requires j <= |s|
    ensures multiset(s[..j] + [x] + s[j..]) == multiset(s) + multiset{x}
  {
    assert s == s[..j] + s[j..];
  }

  /** A compression's values: 70, 75, 78, the per-file values, 85, never going down. */
  lemma ProgressOfCompression(n: nat)
    ensures NonDecreasing([70, 75]) && NonDecreasing([70, 75, 78]) && NonDecreasing([70, 75, 78] + Ticks(78, 7, n) + [85])
    ensures forall i :: 0 <= i < |[70, 75, 78] + Ticks(78, 7, n) + [85]| ==> 70 <= ([70, 75, 78] + Ticks(78, 7, n) + [85])[i] <= 85
  {
    BandedIsNonDecreasing([70, 75, 78], 78, 7, n, [85]);
    TicksOnBand(78, 7, n);
  }

  /** A decompression's values: 10, 20, the per-entry values, 90, never going down. */
  lemma ProgressOfDecompression(n: nat)
    ensures NonDecreasing([10, 20] + Ticks(20, 70, n) + [90])
    ensures forall i :: 0 <= i < |[10, 20] + Ticks(20, 70, n) + [90]| ==> 10 <= ([10, 20] + Ticks(20, 70, n) + [90])[i] <= 90
  {
    BandedIsNonDecreasing([10, 20], 20, 70, n, [90]);
    TicksOnBand(20, 70, n);
  }

  /** Unpacking what was packed: extracting a compression's archive into a fresh
      directory, with every write succeeding, reproduces every collected file
      that could be read, at the same relative path and with the same data. */
  lemma {:induction false} ExtractOfCompressed(fs: FileSystem, root: Path, sizes: map<Path, nat>, readFails: set<Path>,
                                               target: FileSystem, dir: Path)
    requires Subtree(target, dir) == Empty
    ensures var out := Subtree(ExtractInto(target, dir, Compressed(fs, root, sizes, readFails), {}), dir);
      && (forall r :: r in out.files <==> root + r in Collectable(fs, root, sizes) - readFails)
      && (forall r :: r in out.files ==> out.files[r] == fs.files[root + r])
  {
    var m := Compressed(fs, root, sizes, readFails);
    var t := Extractable(m, {});
    var made := MakeDirs(target, dir);
    SubtreeOfOverlay(made, Graft(t, dir), dir);
    SubtreeOfGraft(t, dir);
    MadeDirHasNoFiles(target, dir);
    ExtractableOfMembers(fs, root, sizes, Collectable(fs, root, sizes) - readFails);
  }

  lemma MadeDirHasNoFiles(target: FileSystem, dir: Path)
    requires Subtree(target, dir) == Empty
    ensures Subtree(MakeDirs(target, dir), dir).files == map[]
  {
    assert Subtree(MakeDirs(target, dir), dir).files == Subtree(target, dir).files;
  }

  /** The files an archive of collected files extracts to, with no write failing. */
  lemma ExtractableOfMembers(fs: FileSystem, root: Path, sizes: map<Path, nat>, paths: set<Path>)
    ensures var t := Extractable(MembersFor(fs, root, sizes, paths), {});
      forall r :: r in t.files <==> root + r in paths * Collectable(fs, root, sizes)
    ensures var t := Extractable(MembersFor(fs, root, sizes, paths), {});
      forall r :: r in t.files ==> t.files[r] == fs.files[root + r]
  {
  }
}
