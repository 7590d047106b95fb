/**
  Backup rotation (`_rotate_backups` in WowAddonSync.py, repeated as
  `rotate_backups` in old/service.py): every backup dated at or after the
  cutoff (thirty days before now) is kept; of the older ones only the newest
  of each calendar month survives, and the rest are deleted, newest first.
  The cutoff is an input, so no calendar arithmetic is needed.
*/
module Retention {
  import opened BackupNames
  import opened FileTree

  /** The backups found in a folder: file name to the time its name encodes. */
  type Backups = map<string, Timestamp>

  /** `os.listdir(dir)`: the names of the files and folders directly inside `dir`. */
  function ListDir(fs: FileSystem, dir: Path): (names: set<string>)
    ensures forall n :: dir + [n] in fs.files ==> n in names
    ensures forall n :: n in names ==> Exists(fs, dir + [n])
  {
    ListDirSound(fs, dir);
    set p | p in fs.files.Keys + fs.dirs && |p| > |dir| && Under(p, dir) :: p[|dir|]
  }

  lemma ListDirSound(fs: FileSystem, dir: Path)
    ensures forall n :: dir + [n] in fs.files ==>
      n in set p | p in fs.files.Keys + fs.dirs && |p| > |dir| && Under(p, dir) :: p[|dir|]
    ensures forall p :: p in fs.files.Keys + fs.dirs && |p| > |dir| && Under(p, dir) ==> Under(p, dir + [p[|dir|]])
  {
    forall n | dir + [n] in fs.files
      ensures n in set p | p in fs.files.Keys + fs.dirs && |p| > |dir| && Under(p, dir) :: p[|dir|]
    {
      UnderAppend(dir, [n]);
    }
    forall p | p in fs.files.Keys + fs.dirs && |p| > |dir| && Under(p, dir)
      ensures Under(p, dir + [p[|dir|]])
    {
      assert p[..|dir| + 1] == p[..|dir|] + [p[|dir|]];
    }
  }

  /** The names among `names` that rotation takes for backups, with their times:
      those ending in `.zip` whose stem is a valid stamp. */
  function BackupsIn(names: set<string>): (b: Backups)
    ensures forall n :: n in b <==> n in names && ParseArchiveName(n).Some?
    ensures forall n :: n in b ==> ValidTimestamp(b[n]) && n == ArchiveName(b[n])
  {
    NamesDetermined(names);
    map n | n in names && ParseArchiveName(n).Some? :: ParseArchiveName(n).value
  }

  lemma NamesDetermined(names: set<string>)
    ensures forall n :: n in names && ParseArchiveName(n).Some? ==>
      ValidTimestamp(ParseArchiveName(n).value) && n == ArchiveName(ParseArchiveName(n).value)
  {
    forall n | n in names && ParseArchiveName(n).Some?
      ensures ValidTimestamp(ParseArchiveName(n).value) && n == ArchiveName(ParseArchiveName(n).value)
    {
      ArchiveNameDeterminedByTime(n);
    }
  }

  /** No two backups carry the same time. */
  predicate Distinct(b: Backups)
  {
    forall n, m :: n in b && m in b && b[n] == b[m] ==> n == m
  }

  lemma BackupsAreDistinct(names: set<string>)
    ensures Distinct(BackupsIn(names))
  {
  }

  // ---------------------------------------------------------------------------
  // The keep/remove decision

  /** `backup_date >= thirty_days_ago`. */
  predicate Recent(t: Timestamp, cutoff: Timestamp)
  {
    !Before(t, cutoff)
  }

  /** The `(year, month)` key of the monthly keepers. */
  function MonthOf(t: Timestamp): (int, int)
  {
    (t.year, t.month)
  }

  /** `n` is an old backup no other old backup of its month is newer than. */
  predicate IsMonthlyKeeper(b: Backups, cutoff: Timestamp, n: string)
  {
    && n in b && !Recent(b[n], cutoff)
    && forall m :: m in b && !Recent(b[m], cutoff) && MonthOf(b[m]) == MonthOf(b[n]) ==> !Before(b[n], b[m])
  }

  /** `backups_to_keep`: the recent backups and the monthly keepers. */
  function KeepSet(b: Backups, cutoff: Timestamp): set<string>
  {
    set n | n in b && (Recent(b[n], cutoff) || IsMonthlyKeeper(b, cutoff, n))
  }

  /** The backups rotation deletes. */
  function RemoveSet(b: Backups, cutoff: Timestamp): set<string>
  {
    b.Keys - KeepSet(b, cutoff)
  }

  /** Rotation splits the backups into kept and removed; nothing else is touched,
      every recent backup is kept, and every removed one is old with a newer
      old backup of the same month. */
  lemma RotationPartition(b: Backups, cutoff: Timestamp)
    ensures KeepSet(b, cutoff) + RemoveSet(b, cutoff) == b.Keys
    ensures KeepSet(b, cutoff) !! RemoveSet(b, cutoff)
    ensures forall n :: n in b && Recent(b[n], cutoff) ==> n in KeepSet(b, cutoff)
    ensures forall n :: n in RemoveSet(b, cutoff) ==>
      !Recent(b[n], cutoff) &&
      exists m :: m in b && !Recent(b[m], cutoff) && MonthOf(b[m]) == MonthOf(b[n]) && Before(b[n], b[m])
  {
  }

  lemma BeforeTrans(a: Timestamp, b: Timestamp, c: Timestamp)
    requires Before(a, b) && Before(b, c)
    ensures Before(a, c)
  {
    BeforeIsStrictTotalOrder(a, b, c);
  }

  /** Every non-empty set of backups has a newest member. */
  lemma {:induction false} NewestExists(b: Backups, s: set<string>)
    requires s != {} && s <= b.Keys
    ensures exists k :: k in s && forall m :: m in s ==> !Before(b[k], b[m])
    decreases |s|
  {
    var x :| x in s;
    if s == {x} {
      BeforeIsStrictTotalOrder(b[x], b[x], b[x]);
    } else {
      NewestExists(b, s - {x});
      var k :| k in s - {x} && forall m :: m in s - {x} ==> !Before(b[k], b[m]);
      if Before(b[k], b[x]) {
        forall m | m in s ensures !Before(b[x], b[m]) {
          if m == x {
            BeforeIsStrictTotalOrder(b[x], b[x], b[x]);
          } else if Before(b[x], b[m]) {
            BeforeTrans(b[k], b[x], b[m]);
          }
        }
      } else {
        assert forall m :: m in s ==> !Before(b[k], b[m]);
      }
    }
  }

  /** Every month that has an old backup keeps exactly one of them, the newest. */
  lemma {:induction false} OneKeeperPerMonth(b: Backups, cutoff: Timestamp, n: string)
    requires Distinct(b)
    requires n in b && !Recent(b[n], cutoff)
    ensures exists k :: k in KeepSet(b, cutoff) && !Recent(b[k], cutoff) && MonthOf(b[k]) == MonthOf(b[n])
    ensures forall k :: k in KeepSet(b, cutoff) && !Recent(b[k], cutoff) && MonthOf(b[k]) == MonthOf(b[n]) ==>
      forall m :: m in b && !Recent(b[m], cutoff) && MonthOf(b[m]) == MonthOf(b[n]) ==> m == k || Before(b[m], b[k])
  {
    var s := set m | m in b && !Recent(b[m], cutoff) && MonthOf(b[m]) == MonthOf(b[n]);
    assert n in s;
    NewestExists(b, s);
    var k :| k in s && forall m :: m in s ==> !Before(b[k], b[m]);
    assert IsMonthlyKeeper(b, cutoff, k);
    assert k in KeepSet(b, cutoff);
    forall k' | k' in KeepSet(b, cutoff) && !Recent(b[k'], cutoff) && MonthOf(b[k']) == MonthOf(b[n])
      ensures forall m :: m in b && !Recent(b[m], cutoff) && MonthOf(b[m]) == MonthOf(b[n]) ==> m == k' || Before(b[m], b[k'])
    {
      assert IsMonthlyKeeper(b, cutoff, k');
      forall m | m in b && !Recent(b[m], cutoff) && MonthOf(b[m]) == MonthOf(b[n])
        ensures m == k' || Before(b[m], b[k'])
      {
        BeforeIsStrictTotalOrder(b[m], b[k'], b[m]);
      }
    }
  }

  /** The backups with names in `keys`. */
  function Restrict(b: Backups, keys: set<string>): (r: Backups)
    ensures r.Keys == b.Keys * keys
    ensures forall n :: n in r ==> r[n] == b[n]
  {
    map n | n in b && n in keys :: b[n]
  }

  /** Rotating the survivors again, with the same cutoff, deletes nothing. */
  lemma RotationIdempotent(b: Backups, cutoff: Timestamp)
    ensures RemoveSet(Restrict(b, KeepSet(b, cutoff)), cutoff) == {}
  {
    var b' := Restrict(b, KeepSet(b, cutoff));
    forall n | n in b' ensures n in KeepSet(b', cutoff) {
      if !Recent(b[n], cutoff) {
        assert IsMonthlyKeeper(b, cutoff, n);
        assert IsMonthlyKeeper(b', cutoff, n);
      }
    }
  }

  // ---------------------------------------------------------------------------
  // The rotation loops

  /** The `for f in os.listdir(dest_dir)` loop that builds `backups`. */
  method CollectBackups(names: set<string>) returns (b: Backups)
    ensures b == BackupsIn(names)
  {
    b := map[];
    var todo := names;
    while todo != {}
      invariant todo <= names
      invariant forall n :: n in b <==> n in names - todo && ParseArchiveName(n).Some?
      invariant forall n :: n in b ==> b[n] == ParseArchiveName(n).value
      decreases |todo|
    {
      var f :| f in todo;
      if EndsWith(f, Suffix) {
        match Parse(Stem(f)) {
          case Some(date) => b := b[f := date];
          case None =>
        }
      }
      todo := todo - {f};
    }
  }

  /** The `monthly_keepers` loop: for every month with an old backup, one
      newest old backup of that month. */
  method MonthlyKeepers(b: Backups, cutoff: Timestamp) returns (keepers: map<(int, int), string>)
    ensures forall n :: n in b && !Recent(b[n], cutoff) ==> MonthOf(b[n]) in keepers
    ensures forall key :: key in keepers ==>
      IsMonthlyKeeper(b, cutoff, keepers[key]) && MonthOf(b[keepers[key]]) == key
  {
    var olds := set n | n in b && !Recent(b[n], cutoff);
    var todo := olds;
    keepers := map[];
    while todo != {}
      invariant todo <= olds
      invariant forall n :: n in olds - todo ==> MonthOf(b[n]) in keepers
      invariant forall key :: key in keepers ==>
        && keepers[key] in olds - todo && MonthOf(b[keepers[key]]) == key
        && forall m :: m in olds - todo && MonthOf(b[m]) == key ==> !Before(b[keepers[key]], b[m])
      decreases |todo|
    {
      var f :| f in todo;
      var key := MonthOf(b[f]);
      if key !in keepers || Before(b[keepers[key]], b[f]) {
        forall m | m in olds - todo && MonthOf(b[m]) == key ensures !Before(b[f], b[m]) {
          if Before(b[f], b[m]) {
            BeforeTrans(b[keepers[key]], b[f], b[m]);
          }
        }
        keepers := keepers[key := f];
      }
      BeforeIsStrictTotalOrder(b[f], b[f], b[f]);
      todo := todo - {f};
    }
  }

  /** The recent backups and the values of a complete `monthly_keepers` table
      are exactly the backups to keep. */
  lemma KeepersGiveKeepSet(b: Backups, cutoff: Timestamp, keepers: map<(int, int), string>)
    requires Distinct(b)
    requires forall n :: n in b && !Recent(b[n], cutoff) ==> MonthOf(b[n]) in keepers
    requires forall key :: key in keepers ==>
      IsMonthlyKeeper(b, cutoff, keepers[key]) && MonthOf(b[keepers[key]]) == key
    ensures (set n | n in b && Recent(b[n], cutoff)) + keepers.Values == KeepSet(b, cutoff)
  {
    forall n | n in KeepSet(b, cutoff) && !Recent(b[n], cutoff) ensures n in keepers.Values {
      var key := MonthOf(b[n]);
      assert IsMonthlyKeeper(b, cutoff, keepers[key]);
      BeforeIsStrictTotalOrder(b[n], b[keepers[key]], b[n]);
    }
  }

  /** The paths of `names` inside `dir`. */
  function PathsIn(dir: Path, names: set<string>): set<Path>
  {
    set n | n in names :: dir + [n]
  }

  /** `fs` with the files `dir/<n>` for `n` in `names` deleted. */
  function RemoveFiles(fs: FileSystem, dir: Path, names: set<string>): FileSystem
  {
    FileSystem(fs.dirs, fs.files - PathsIn(dir, names))
  }

  /** `os.remove(dir/<f>)` raises: the file is refused, or there is no file
      by that name (a folder named like a backup cannot be removed this way). */
  predicate Refused(fs: FileSystem, dir: Path, removeFails: set<string>, f: string)
  {
    f in removeFails || dir + [f] !in fs.files
  }

  /** The deletion loop stopped only where it had to: all of `doomed` is
      gone, or the newest of those left is refused. */
  ghost predicate StoppedAtRefusal(fs: FileSystem, dir: Path, b: Backups, doomed: set<string>, removeFails: set<string>,
                                   removed: set<string>)
    requires doomed <= b.Keys
  {
    removed == doomed ||
    exists f :: f in doomed && f !in removed && Refused(fs, dir, removeFails, f)
             && forall m :: m in doomed && m !in removed ==> !Before(b[f], b[m])
  }

  /** What a rotation of `destDir` that deleted `removed` did: it deleted
      only backups it should, newest first, and all of them unless it stopped
      at the newest one left, which `os.remove` refused or which was no file. */
  ghost predicate Rotated(fs: FileSystem, destDir: Path, cutoff: Timestamp, removeFails: set<string>, removed: set<string>)
  {
    var b := BackupsIn(ListDir(fs, destDir));
    var doomed := RemoveSet(b, cutoff);
    && removed <= doomed
    && (forall r, k :: r in removed && k in doomed - removed ==> Before(b[k], b[r]))
    && StoppedAtRefusal(fs, destDir, b, doomed, removeFails, removed)
    && (forall r :: r in removed ==> !Refused(fs, destDir, removeFails, r))
    && ((forall f :: f in doomed ==> !Refused(fs, destDir, removeFails, f)) ==> removed == doomed)
  }

  /** The whole rotation.  `removeFails` names the files `os.remove` refuses
      (in use, read-only); removing a folder always fails.  The first failure
      ends the rotation (the exception is caught and logged), so `ok` reports
      whether it ran to the end. */
  method RotateBackups(fs: FileSystem, destDir: Path, cutoff: Timestamp, removeFails: set<string>)
    returns (fs': FileSystem, removed: set<string>, ok: bool)
    ensures !Exists(fs, destDir) ==> fs' == fs && removed == {} && ok
    ensures removed <= RemoveSet(BackupsIn(ListDir(fs, destDir)), cutoff)
    ensures ok <==> removed == RemoveSet(BackupsIn(ListDir(fs, destDir)), cutoff)
    ensures fs' == RemoveFiles(fs, destDir, removed)
    ensures var b := BackupsIn(ListDir(fs, destDir));
      forall r, k :: r in removed && k in RemoveSet(b, cutoff) - removed ==> Before(b[k], b[r])
    ensures var b := BackupsIn(ListDir(fs, destDir));
      (forall f :: f in RemoveSet(b, cutoff) ==> !Refused(fs, destDir, removeFails, f)) ==> ok
    ensures var b := BackupsIn(ListDir(fs, destDir));
      StoppedAtRefusal(fs, destDir, b, RemoveSet(b, cutoff), removeFails, removed)
    ensures forall r :: r in removed ==> !Refused(fs, destDir, removeFails, r)
    ensures Rotated(fs, destDir, cutoff, removeFails, removed)
  {
    if !Exists(fs, destDir) {
      assert ListDir(fs, destDir) == {};
      fs', removed, ok := fs, {}, true;
      NothingRemoved(fs, destDir);
      return;
    }
    var names := ListDir(fs, destDir);
    var backups := CollectBackups(names);
    if backups == map[] {
      fs', removed, ok := fs, {}, true;
      NothingRemoved(fs, destDir);
      return;
    }
    var keepers := MonthlyKeepers(backups, cutoff);
    var keep := (set n | n in backups && Recent(backups[n], cutoff)) + keepers.Values;
    KeepersGiveKeepSet(backups, cutoff, keepers);
    fs', removed, ok := DeleteNewestFirst(fs, destDir, backups, backups.Keys - keep, removeFails);
  }

  lemma NothingRemoved(fs: FileSystem, dir: Path)
    ensures RemoveFiles(fs, dir, {}) == fs
  {
    assert fs.files - PathsIn(dir, {}) == fs.files;
  }

  lemma NewestIsStrictlyNewest(b: Backups, s: set<string>, f: string)
    requires Distinct(b) && s <= b.Keys && f in s
    requires forall m :: m in s ==> !Before(b[f], b[m])
    ensures forall k :: k in s - {f} ==> Before(b[k], b[f])
  {
    forall k | k in s - {f} ensures Before(b[k], b[f]) {
      BeforeIsStrictTotalOrder(b[k], b[f], b[k]);
    }
  }

  /** The state of the deletion loop: `removed` deleted from `doomed` and
      `todo` left; every deleted backup was not refused and is newer than every
      one left; and once the loop has stopped early (`!ok`), `stop` is the
      newest backup left and it is refused. */
  ghost predicate DeletionProgress(fs: FileSystem, dir: Path, b: Backups, doomed: set<string>, removeFails: set<string>,
                                   removed: set<string>, todo: set<string>, ok: bool, stop: string)
  {
    && doomed <= b.Keys && todo <= doomed && removed == doomed - todo
    && (forall r, k :: r in removed && k in todo ==> Before(b[k], b[r]))
    && (forall r :: r in removed ==> !Refused(fs, dir, removeFails, r))
    && (!ok ==> && stop in todo && Refused(fs, dir, removeFails, stop)
                && forall m :: m in todo ==> !Before(b[stop], b[m]))
  }

  /** Deleting the newest backup left, when it is not refused, keeps the loop
      state. */
  lemma DeletionStep(fs: FileSystem, dir: Path, b: Backups, doomed: set<string>, removeFails: set<string>,
                     removed: set<string>, todo: set<string>, stop: string, f: string)
    ensures && Distinct(b) && DeletionProgress(fs, dir, b, doomed, removeFails, removed, todo, true, stop)
            && f in todo && (forall m :: m in todo ==> !Before(b[f], b[m]))
            && !Refused(fs, dir, removeFails, f)
            ==> DeletionProgress(fs, dir, b, doomed, removeFails, removed + {f}, todo - {f}, true, stop)
  {
    if && Distinct(b) && DeletionProgress(fs, dir, b, doomed, removeFails, removed, todo, true, stop)
       && f in todo && forall m :: m in todo ==> !Before(b[f], b[m]) {
      NewestIsStrictlyNewest(b, todo, f);
      assert doomed - (removed + {f}) == todo - {f};
    }
  }

  /** Meeting a refusal at the newest backup left stops the loop in a state
      that records it. */
  lemma DeletionRefused(fs: FileSystem, dir: Path, b: Backups, doomed: set<string>, removeFails: set<string>,
                        removed: set<string>, todo: set<string>, stop: string, f: string)
    ensures && DeletionProgress(fs, dir, b, doomed, removeFails, removed, todo, true, stop)
            && f in todo && (forall m :: m in todo ==> !Before(b[f], b[m]))
            && Refused(fs, dir, removeFails, f)
            ==> DeletionProgress(fs, dir, b, doomed, removeFails, removed, todo, false, f)
  {
  }

  /** What `DeleteNewestFirst` promises of the backups it deleted. */
  ghost predicate Deleted(fs: FileSystem, dir: Path, b: Backups, doomed: set<string>, removeFails: set<string>,
                          removed: set<string>, ok: bool)
    requires doomed <= b.Keys
  {
    && removed <= doomed
    && (ok <==> removed == doomed)
    && (forall r, k :: r in removed && k in doomed - removed ==> Before(b[k], b[r]))
    && ((forall f :: f in doomed ==> !Refused(fs, dir, removeFails, f)) ==> ok)
    && StoppedAtRefusal(fs, dir, b, doomed, removeFails, removed)
    && (forall r :: r in removed ==> !Refused(fs, dir, removeFails, r))
  }

  /** Where the deletion loop ends, it has done what `Deleted` says. */
  lemma DeletionEnds(fs: FileSystem, dir: Path, b: Backups, doomed: set<string>, removeFails: set<string>,
                     removed: set<string>, todo: set<string>, ok: bool, stop: string)
    requires doomed <= b.Keys
    ensures && DeletionProgress(fs, dir, b, doomed, removeFails, removed, todo, ok, stop)
            && (ok ==> todo == {})
            ==> Deleted(fs, dir, b, doomed, removeFails, removed, ok)
  {
    if DeletionProgress(fs, dir, b, doomed, removeFails, removed, todo, ok, stop) {
      assert doomed - removed == todo;
      if !ok {
        assert stop in doomed && stop !in removed;
      }
    }
  }

  lemma RemoveFilesKeepsOthers(fs: FileSystem, dir: Path, removed: set<string>, f: string)
    requires f !in removed
    ensures dir + [f] in RemoveFiles(fs, dir, removed).files <==> dir + [f] in fs.files
  {
    forall n | n in removed ensures dir + [n] != dir + [f] {
      assert (dir + [n])[|dir|] == n;
    }
  }

  lemma RemoveFilesStep(fs: FileSystem, dir: Path, removed: set<string>, f: string)
    ensures RemoveFile(RemoveFiles(fs, dir, removed), dir + [f]) == RemoveFiles(fs, dir, removed + {f})
  {
    assert PathsIn(dir, removed + {f}) == PathsIn(dir, removed) + {dir + [f]};
  }

  /** Deleting files directly inside `dir` leaves every deeper tree alone. */
  lemma SubtreeOfRemoveFiles(fs: FileSystem, dir: Path, names: set<string>, root: Path)
    requires |dir| + 1 < |root|
    ensures Subtree(RemoveFiles(fs, dir, names), root) == Subtree(fs, root)
  {
    Rejoin(root);
    assert Subtree(RemoveFiles(fs, dir, names), root).files.Keys == Subtree(fs, root).files.Keys;
  }

  /** Deleting files makes nothing appear. */
  lemma ExistsAfterRemoveFiles(fs: FileSystem, dir: Path, names: set<string>, p: Path)
    ensures Exists(RemoveFiles(fs, dir, names), p) ==> Exists(fs, p)
  {
  }

  /** The deletion loop: `os.remove` on each backup of `doomed`, newest first,
      stopping at the first refusal. */
  method DeleteNewestFirst(fs: FileSystem, destDir: Path, b: Backups, doomed: set<string>, removeFails: set<string>)
    returns (fs': FileSystem, removed: set<string>, ok: bool)
    requires doomed <= b.Keys && Distinct(b)
    ensures removed <= doomed
    ensures ok <==> removed == doomed
    ensures fs' == RemoveFiles(fs, destDir, removed)
    ensures forall r, k :: r in removed && k in doomed - removed ==> Before(b[k], b[r])
    ensures (forall f :: f in doomed ==> !Refused(fs, destDir, removeFails, f)) ==> ok
    ensures StoppedAtRefusal(fs, destDir, b, doomed, removeFails, removed)
    ensures forall r :: r in removed ==> !Refused(fs, destDir, removeFails, r)
  {
    fs', removed, ok := fs, {}, true;
    NothingRemoved(fs, destDir);
    var todo := doomed;
    ghost var stop := "";
    while todo != {} && ok
      invariant fs' == RemoveFiles(fs, destDir, removed)
      invariant DeletionProgress(fs, destDir, b, doomed, removeFails, removed, todo, ok, stop)
      decreases |todo|, ok
    {
      NewestExists(b, todo);
      var f :| f in todo && forall m :: m in todo ==> !Before(b[f], b[m]);
      var path := destDir + [f];
      RemoveFilesKeepsOthers(fs, destDir, removed, f);
      if path !in fs'.files || f in removeFails {
        DeletionRefused(fs, destDir, b, doomed, removeFails, removed, todo, stop, f);
        ok, stop := false, f;
      } else {
        DeletionStep(fs, destDir, b, doomed, removeFails, removed, todo, stop, f);
        RemoveFilesStep(fs, destDir, removed, f);
        fs' := RemoveFile(fs', path);
        removed := removed + {f};
        todo := todo - {f};
      }
    }
    DeletionEnds(fs, destDir, b, doomed, removeFails, removed, todo, ok, stop);
  }

  /** As on a real disk, nothing lies below a file. */
  predicate FilesAreLeaves(fs: FileSystem)
  {
    && (forall f, p :: f in fs.files && p in fs.files && Under(p, f) ==> p == f)
    && (forall f, d :: f in fs.files && d in fs.dirs ==> !Under(d, f))
  }

  /** Deleting files from a folder takes exactly their names off its listing. */
  lemma ListDirAfterRemove(fs: FileSystem, dir: Path, names: set<string>)
    requires FilesAreLeaves(fs)
    requires forall n :: n in names ==> dir + [n] in fs.files
    ensures ListDir(RemoveFiles(fs, dir, names), dir) == ListDir(fs, dir) - names
  {
    ListDirKeepsOthers(fs, dir, names);
    ListDirDropsRemoved(fs, dir, names);
  }

  lemma ListDirKeepsOthers(fs: FileSystem, dir: Path, names: set<string>)
    ensures ListDir(fs, dir) - names <= ListDir(RemoveFiles(fs, dir, names), dir)
  {
    var fs2 := RemoveFiles(fs, dir, names);
    forall n | n in ListDir(fs, dir) - names ensures n in ListDir(fs2, dir) {
      var p :| p in fs.files.Keys + fs.dirs && |p| > |dir| && Under(p, dir) && p[|dir|] == n;
      forall m | m in names ensures dir + [m] != p {
        assert (dir + [m])[|dir|] == m;
      }
      assert p in fs2.files.Keys + fs2.dirs;
    }
  }

  lemma ListDirDropsRemoved(fs: FileSystem, dir: Path, names: set<string>)
    requires FilesAreLeaves(fs)
    requires forall n :: n in names ==> dir + [n] in fs.files
    ensures ListDir(RemoveFiles(fs, dir, names), dir) <= ListDir(fs, dir) - names
  {
    var fs2 := RemoveFiles(fs, dir, names);
    ListDirSound(fs2, dir);
    forall n | n in ListDir(fs2, dir) ensures n in ListDir(fs, dir) && n !in names {
      var p :| p in fs2.files.Keys + fs2.dirs && |p| > |dir| && Under(p, dir) && p[|dir|] == n;
      assert p in fs.files.Keys + fs.dirs;
      assert Under(p, dir + [n]);
      assert n in names ==> dir + [n] in fs.files && dir + [n] in PathsIn(dir, names);
    }
  }

  lemma BackupsInMinus(names: set<string>, removed: set<string>)
    ensures BackupsIn(names - removed) == Restrict(BackupsIn(names), BackupsIn(names).Keys - removed)
  {
    var left, right := BackupsIn(names - removed), Restrict(BackupsIn(names), BackupsIn(names).Keys - removed);
    forall n ensures n in left <==> n in right {
    }
    forall n | n in left ensures left[n] == right[n] {
    }
  }

  /** A rotation that ran to the end leaves a folder that a second rotation,
      with the same cutoff, leaves alone. */
  lemma SecondRotationRemovesNothing(fs: FileSystem, destDir: Path, cutoff: Timestamp)
    requires FilesAreLeaves(fs)
    requires forall n :: n in RemoveSet(BackupsIn(ListDir(fs, destDir)), cutoff) ==> destDir + [n] in fs.files
    ensures var b := BackupsIn(ListDir(fs, destDir));
      var fs2 := RemoveFiles(fs, destDir, RemoveSet(b, cutoff));
      RemoveSet(BackupsIn(ListDir(fs2, destDir)), cutoff) == {}
  {
    var names := ListDir(fs, destDir);
    var b := BackupsIn(names);
    var removed := RemoveSet(b, cutoff);
    ListDirAfterRemove(fs, destDir, removed);
    BackupsInMinus(names, removed);
    assert b.Keys - removed == KeepSet(b, cutoff);
    RotationIdempotent(b, cutoff);
  }
}
