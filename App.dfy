/**
  The GUI application's backup and restore pipelines (`_backup_operation`,
  `perform_restore` and the steps they call) and its log-message cleaning.
  The application is a class whose file system and progress trail change as
  the steps run; the outcome of each step the model does not compute (a
  directory that cannot be made, a copy tool that fails) is an input.
*/
module App {
  import opened Wrappers
  import opened FileTree
  import opened BackupNames
  import opened Layout
  import opened Compression
  import Retention

  // ---------------------------------------------------------------------------
  // Log-message cleaning

  predicate IsAscii(c: char)
  {
    c as int < 128
  }

  /** The ASCII characters `str.strip()` removes: space, tab, line feed,
      vertical tab, form feed, carriage return and the four separators 28..31. */
  predicate IsSpace(c: char)
  {
    c == ' ' || 9 <= c as int <= 13 || 28 <= c as int <= 31
  }

  /** `encode('ascii', 'ignore').decode('ascii')`: the ASCII characters, in order. */
  function AsciiOnly(s: string): (r: string)
    ensures forall k :: 0 <= k < |r| ==> IsAscii(r[k])
    ensures |r| <= |s|
    ensures |s| == 1 ==> r == if IsAscii(s[0]) then s else []
  {
    if s == [] then [] else (if IsAscii(s[0]) then [s[0]] else []) + AsciiOnly(s[1..])
  }

  /** The filter works character by character: filtering a joined text joins
      the filtered parts. */
  lemma {:induction false} AsciiOnlyConcat(a: string, b: string)
    ensures AsciiOnly(a + b) == AsciiOnly(a) + AsciiOnly(b)
  {
    if a != [] {
      assert (a + b)[1..] == a[1..] + b;
      AsciiOnlyConcat(a[1..], b);
    } else {
      assert a + b == b;
    }
  }

  lemma {:induction false} AsciiOnlyOfAscii(s: string)
    requires forall k :: 0 <= k < |s| ==> IsAscii(s[k])
    ensures AsciiOnly(s) == s
  {
    if s != [] {
      AsciiOnlyOfAscii(s[1..]);
    }
  }

  predicate Stripped(s: string)
  {
    s == [] || (!IsSpace(s[0]) && !IsSpace(s[|s| - 1]))
  }

  predicate AllSpace(s: string)
  {
    forall k :: 0 <= k < |s| ==> IsSpace(s[k])
  }

  /** How many white-space characters `s` starts with. */
  function Lead(s: string): (n: nat)
    ensures n <= |s| && AllSpace(s[..n]) && (n < |s| ==> !IsSpace(s[n]))
  {
    if s == [] || !IsSpace(s[0]) then 0
    else
      var n := 1 + Lead(s[1..]);
      assert s[..n] == [s[0]] + s[1..][..n - 1];
      n
  }

  /** How many white-space characters `s` ends with. */
  function Trail(s: string): (n: nat)
    ensures n <= |s| && AllSpace(s[|s| - n..]) && (n < |s| ==> !IsSpace(s[|s| - n - 1]))
  {
    if s == [] || !IsSpace(s[|s| - 1]) then 0
    else
      var t := s[..|s| - 1];
      var n := 1 + Trail(t);
      assert s[|s| - n..] == t[|t| - (n - 1)..] + [s[|s| - 1]];
      n
  }

  /** Cutting characters off the front leaves the trailing white space alone,
      so long as something that is not white space is left. */
  lemma {:induction false} TrailOfSuffix(s: string, k: nat)
    requires k <= |s| && !AllSpace(s[k..])
    ensures Trail(s[k..]) == Trail(s)
  {
    var u := s[k..];
    if IsSpace(s[|s| - 1]) {
      var t := s[..|s| - 1];
      assert u[|u| - 1] == s[|s| - 1];
      var j :| 0 <= j < |u| && !IsSpace(u[j]);
      assert j < |u| - 1;
      assert u[..|u| - 1] == t[k..];
      assert t[k..][j] == u[j];
      TrailOfSuffix(t, k);
    }
  }

  /** `str.strip()`: `s` minus its leading and trailing white space; all of it
      when it is only white space. */
  function Strip(s: string): (r: string)
    ensures Stripped(r)
    ensures AllSpace(s) ==> r == []
    ensures !AllSpace(s) ==> Lead(s) + Trail(s) < |s| && r == s[Lead(s)..|s| - Trail(s)]
  {
    if AllSpace(s) then
      []
    else
      var lead := Lead(s);
      assert lead < |s|;
      var u := s[lead..];
      assert !AllSpace(u) by { assert !IsSpace(u[0]); }
      TrailOfSuffix(s, lead);
      assert u[0..] == u;
      s[lead..|s| - Trail(s)]
  }

  lemma StripOfStripped(s: string)
    requires Stripped(s)
    ensures Strip(s) == s
  {
    assert Lead(s) == 0;
    assert s[0..] == s;
  }

  /** The text `log` writes to the log file: the message without its non-ASCII
      characters (emoji) and surrounding white space, or the message itself
      when nothing would be left. */
  function CleanLogMessage(message: string): (r: string)
    ensures r == [] <==> message == []
    ensures Strip(AsciiOnly(message)) != [] ==>
      r == Strip(AsciiOnly(message)) && Stripped(r) && forall k :: 0 <= k < |r| ==> IsAscii(r[k])
    ensures Strip(AsciiOnly(message)) == [] ==> r == message
  {
    var clean := Strip(AsciiOnly(message));
    if clean != [] then clean else message
  }

  /** Text that is already plain ASCII with no surrounding space is logged as is. */
  lemma CleanKeepsPlainText(message: string)
    requires Stripped(message) && forall k :: 0 <= k < |message| ==> IsAscii(message[k])
    ensures CleanLogMessage(message) == message
  {
    AsciiOnlyOfAscii(message);
  }

  /** Cleaning a cleaned message changes nothing. */
  lemma CleanIdempotent(message: string)
    ensures CleanLogMessage(CleanLogMessage(message)) == CleanLogMessage(message)
  {
    var r := CleanLogMessage(message);
    if Strip(AsciiOnly(message)) != [] {
      CleanKeepsPlainText(r);
    }
  }

  // ---------------------------------------------------------------------------
  // The pipelines' settings and step outcomes

  /** The GUI's settings (its tkinter variables). */
  datatype Settings = Settings(wowBaseDir: string, wowVersion: string, tempBaseDir: string, destDir: string,
                               fastCompression: bool)

  /** Outcomes of the backup steps the model takes as given: whether each
      directory can be made, each tree copy succeeds, the archive can be opened
      and moved; the sizes `os.path.getsize` can read and the files that
      cannot be read; the backups `os.remove` refuses. */
  datatype BackupEnv = BackupEnv(makeTempBaseOk: bool, makeTempDirOk: bool, copyInterfaceOk: bool, copyWtfOk: bool,
                                 sizes: map<Path, nat>, readFails: set<Path>, openOk: bool,
                                 makeDestOk: bool, moveOk: bool, removeFails: set<string>)

  /** Outcomes of the restore steps the model takes as given: whether the
      unpacking directory can be made, the entries that cannot be written, and
      whether each tree copy succeeds. */
  datatype RestoreEnv = RestoreEnv(makeDirOk: bool, writeFails: set<Path>, copyInterfaceOk: bool, copyWtfOk: bool)

  /** Why `_validate_backup_paths` answered as it did, in the order it checks. */
  datatype Validation = PathsOk | NoInterface | NoWtf | NoTempBase

  function Validate(fs: FileSystem, s: Settings, makeTempBaseOk: bool): Validation
  {
    if !Exists(fs, InterfaceDir(s.wowBaseDir, s.wowVersion)) then NoInterface
    else if !Exists(fs, WtfDir(s.wowBaseDir, s.wowVersion)) then NoWtf
    else if !Exists(fs, Dir(s.tempBaseDir)) && !makeTempBaseOk then NoTempBase
    else PathsOk
  }

  /** The file system after a validation that passed: the temporary base made
      when it was missing. */
  function Validated(fs: FileSystem, s: Settings): FileSystem
  {
    if Exists(fs, Dir(s.tempBaseDir)) then fs else MakeDirs(fs, Dir(s.tempBaseDir))
  }

  /** The staging directory made and both live trees copied into it. */
  function Staged(fs: FileSystem, s: Settings, t: Timestamp): FileSystem
    requires ValidTimestamp(t)
  {
    var tmp := TempDir(s.tempBaseDir, t);
    var made := MakeDirs(fs, tmp);
    var withInterface := Mirror(made, InterfaceDir(s.wowBaseDir, s.wowVersion), tmp + ["Interface"]);
    Mirror(withInterface, WtfDir(s.wowBaseDir, s.wowVersion), tmp + ["WTF"])
  }

  /** The progress values a compression reports for `n` collected files when
      it succeeds. */
  function CompressProgress(n: nat): seq<int>
  {
    if n == 0 then [70, 75] else [70, 75, 78] + Ticks(78, 7, n) + [85]
  }

  /** What a backup needs once its paths are valid (`validated` is the file
      system then): the staging directory made, both copies, an archive
      (opened when anything was collected; when nothing was, only a file
      already lying at the archive's path can be moved), and the destination
      made and the archive moved there. */
  predicate Delivers(validated: FileSystem, s: Settings, t: Timestamp, env: BackupEnv)
    requires ValidTimestamp(t)
  {
    && env.makeTempDirOk && env.copyInterfaceOk && env.copyWtfOk
    && (var staged := Staged(validated, s, t);
        var files := Collectable(staged, TempDir(s.tempBaseDir, t), env.sizes);
        && (files != {} ==> env.openOk)
        && (files == {} ==> ArchivePath(s.tempBaseDir, t) in staged.files))
    && env.makeDestOk && env.moveOk
  }

  function Last(s: seq<int>): int
    requires s != []
  {
    s[|s| - 1]
  }

  /** The staging directory holds exactly copies of the two live trees, under
      `Interface` and `WTF`, whatever else the file system holds. */
  lemma {:induction false} StagedCopies(fs: FileSystem, s: Settings, t: Timestamp)
    requires ValidTimestamp(t)
    ensures var tmp := TempDir(s.tempBaseDir, t);
      && Subtree(Staged(Validated(fs, s), s, t), tmp + ["Interface"]) == Subtree(fs, InterfaceDir(s.wowBaseDir, s.wowVersion))
      && Subtree(Staged(Validated(fs, s), s, t), tmp + ["WTF"]) == Subtree(fs, WtfDir(s.wowBaseDir, s.wowVersion))
  {
    var tmp := TempDir(s.tempBaseDir, t);
    var live, wtf := InterfaceDir(s.wowBaseDir, s.wowVersion), WtfDir(s.wowBaseDir, s.wowVersion);
    var made := MakeDirs(Validated(fs, s), tmp);
    var withInterface := Mirror(made, live, tmp + ["Interface"]);
    LayoutDisjoint(s.tempBaseDir, s.wowBaseDir, s.wowVersion, t);
    assert !Under(Dir(s.tempBaseDir), live) && !Under(Dir(s.tempBaseDir), wtf);
    SubtreeOfMakeDirs(fs, Dir(s.tempBaseDir), live);
    SubtreeOfMakeDirs(fs, Dir(s.tempBaseDir), wtf);
    SubtreeOfMakeDirs(Validated(fs, s), tmp, live);
    SubtreeOfMakeDirs(Validated(fs, s), tmp, wtf);
    SubtreeOfMirror(made, live, tmp + ["Interface"]);
    SubtreeOfMirrorDisjoint(withInterface, wtf, tmp + ["WTF"], tmp + ["Interface"]);
    SubtreeOfMirrorDisjoint(made, live, tmp + ["Interface"], wtf);
    SubtreeOfMirror(withInterface, wtf, tmp + ["WTF"]);
  }

  /** A new backup dated on or after the cutoff survives its own rotation. */
  lemma NewBackupKept(fs: FileSystem, destDir: Path, t: Timestamp, cutoff: Timestamp, removed: set<string>)
    requires ValidTimestamp(t) && !Before(t, cutoff)
    requires removed <= Retention.RemoveSet(Retention.BackupsIn(Retention.ListDir(fs, destDir)), cutoff)
    ensures destDir + [ArchiveName(t)] !in Retention.PathsIn(destDir, removed)
  {
    var b := Retention.BackupsIn(Retention.ListDir(fs, destDir));
    var name := ArchiveName(t);
    ParseArchiveNameOfArchiveName(t);
    assert name in b ==> b[name] == t && name in Retention.KeepSet(b, cutoff);
    assert name !in removed;
    forall n | n in removed ensures destDir + [n] != destDir + [name] {
      assert (destDir + [n])[|destDir|] == n;
    }
  }

  lemma BackupProgressShape(start: seq<int>, compression: seq<int>)
    ensures start + [0] + [5, 10, 35, 40, 65] + compression + [90, 100]
         == start + [0, 5, 10, 35, 40, 65] + compression + [90, 100]
  {
    assert start + [0] + [5, 10, 35, 40, 65] == start + [0, 5, 10, 35, 40, 65];
  }

  /** Progress only grows: a prefix, extended, is still a prefix, and a shorter one. */
  lemma PrefixExtended(a: seq<int>, c: seq<int>, d: seq<int>)
    requires a <= c && d != []
    ensures a <= c + d && |a| < |c + d|
  {
    assert (c + d)[..|a|] == c[..|a|];
  }

  lemma ProgressJoin(start: seq<int>, a: seq<int>, b: seq<int>)
    ensures start + a + b == start + (a + b)
  {
  }

  lemma RestoreProgressShape(start: seq<int>)
    ensures start + [0, 10, 20] + [75, 0] == start + [0, 10, 20, 75, 0]
    ensures start + [0, 10, 20] + [75, 85, 0] == start + [0, 10, 20, 75, 85, 0]
    ensures start + [0, 10, 20] + [75, 85, 95, 100] == start + [0, 10, 20, 75, 85, 95, 100]
  {
  }

  /** What finalizing delivers: the archive, moved to its destination, is
      neither touched by removing the staging directory nor changed by the
      rotation, which at most deletes it. */
  lemma FinalizedArchive(before: FileSystem, destDir: string, tempBase: string, t: Timestamp, removed: set<string>)
    requires ValidTimestamp(t) && ArchivePath(tempBase, t) in before.files
    ensures var dest, target := Dir(destDir), DestPath(destDir, t);
      var moved := MoveFile(MakeDirs(before, dest), ArchivePath(tempBase, t), target);
      var after := Retention.RemoveFiles(Cleared(moved, TempDir(tempBase, t)), dest, removed);
      target in after.files ==> after.files[target] == before.files[ArchivePath(tempBase, t)]
  {
    var target := DestPath(destDir, t);
    var tmp := TempDir(tempBase, t);
    assert |ArchiveName(t)| == |Format(t)| + 4;
    ApartAtEnd(target, tmp);
  }

  /** A backup dated on or after the cutoff survives finalizing: the move
      puts it at its destination, removing the staging directory misses it
      and the rotation keeps it. */
  lemma FinalizedBackupKept(before: FileSystem, destDir: string, tempBase: string, t: Timestamp, cutoff: Timestamp,
                            removed: set<string>)
    requires ValidTimestamp(t) && ArchivePath(tempBase, t) in before.files && !Before(t, cutoff)
    requires var moved := MoveFile(MakeDirs(before, Dir(destDir)), ArchivePath(tempBase, t), DestPath(destDir, t));
      var cleaned := Cleared(moved, TempDir(tempBase, t));
      removed <= Retention.RemoveSet(Retention.BackupsIn(Retention.ListDir(cleaned, Dir(destDir))), cutoff)
    ensures var moved := MoveFile(MakeDirs(before, Dir(destDir)), ArchivePath(tempBase, t), DestPath(destDir, t));
      var cleaned := Cleared(moved, TempDir(tempBase, t));
      DestPath(destDir, t) in Retention.RemoveFiles(cleaned, Dir(destDir), removed).files
  {
    var target := DestPath(destDir, t);
    var moved := MoveFile(MakeDirs(before, Dir(destDir)), ArchivePath(tempBase, t), target);
    var cleaned := Cleared(moved, TempDir(tempBase, t));
    assert |ArchiveName(t)| == |Format(t)| + 4;
    ApartAtEnd(target, TempDir(tempBase, t));
    assert target in cleaned.files;
    NewBackupKept(cleaned, Dir(destDir), t, cutoff, removed);
  }

  // ---------------------------------------------------------------------------
  // What a backup leaves on disk

  /** Staging and compressing go through: the staging directory is made, both
      copies succeed, and the archive is opened unless nothing was collected. */
  predicate StagingOk(fs: FileSystem, s: Settings, t: Timestamp, env: BackupEnv)
    requires ValidTimestamp(t)
  {
    && env.makeTempDirOk && env.copyInterfaceOk && env.copyWtfOk
    && (Collectable(Staged(fs, s, t), TempDir(s.tempBaseDir, t), env.sizes) == {} || env.openOk)
  }

  /** The file system that making the staging directory, the two copies and
      the compression leave, stopping at the first step that raises; nothing
      made on the way is removed again. */
  function AfterStaging(fs: FileSystem, s: Settings, t: Timestamp, env: BackupEnv): FileSystem
    requires ValidTimestamp(t)
  {
    var tmp := TempDir(s.tempBaseDir, t);
    var made := MakeDirs(fs, tmp);
    var staged := Staged(fs, s, t);
    if !env.makeTempDirOk then fs
    else if !env.copyInterfaceOk then made
    else if !env.copyWtfOk then Mirror(made, InterfaceDir(s.wowBaseDir, s.wowVersion), tmp + ["Interface"])
    else if Collectable(staged, tmp, env.sizes) == {} || !env.openOk then staged
    else WriteFile(staged, ArchivePath(s.tempBaseDir, t), ZipArchive(Compressed(staged, tmp, env.sizes, env.readFails)))
  }

  /** Finalizing gets past the move: the destination is made, the archive is
      there and the move goes through. */
  predicate Moved(fs: FileSystem, s: Settings, t: Timestamp, env: BackupEnv)
    requires ValidTimestamp(t)
  {
    env.makeDestOk && env.moveOk && ArchivePath(s.tempBaseDir, t) in fs.files
  }

  /** The archive moved to the backup's place and the staging directory
      removed: what the rotation starts from. */
  function Cleaned(fs: FileSystem, s: Settings, t: Timestamp): FileSystem
    requires ValidTimestamp(t) && ArchivePath(s.tempBaseDir, t) in fs.files
  {
    var made := MakeDirs(fs, Dir(s.destDir));
    Cleared(MoveFile(made, ArchivePath(s.tempBaseDir, t), DestPath(s.destDir, t)), TempDir(s.tempBaseDir, t))
  }

  /** The file system finalizing `fs` leaves when its rotation deleted
      `removed`: nothing when the destination cannot be made, the destination
      alone when the move fails, and otherwise the rotated destination. */
  function AfterFinalize(fs: FileSystem, s: Settings, t: Timestamp, env: BackupEnv, removed: set<string>): FileSystem
    requires ValidTimestamp(t)
  {
    if !env.makeDestOk then fs
    else if !Moved(fs, s, t, env) then MakeDirs(fs, Dir(s.destDir))
    else Retention.RemoveFiles(Cleaned(fs, s, t), Dir(s.destDir), removed)
  }

  /** `removed` is what finalizing `fs` can have deleted: a rotation of the
      destination once the archive is moved, and nothing before. */
  ghost predicate FinalizeRotated(fs: FileSystem, s: Settings, t: Timestamp, cutoff: Timestamp, env: BackupEnv,
                                  removed: set<string>)
    requires ValidTimestamp(t)
  {
    if Moved(fs, s, t, env) then Retention.Rotated(Cleaned(fs, s, t), Dir(s.destDir), cutoff, env.removeFails, removed)
    else removed == {}
  }

  /** The file system a backup leaves once its paths are valid: staging,
      and finalizing when staging went through. */
  function AfterDelivery(fs: FileSystem, s: Settings, t: Timestamp, env: BackupEnv, removed: set<string>): FileSystem
    requires ValidTimestamp(t)
  {
    var staged := AfterStaging(fs, s, t, env);
    if StagingOk(fs, s, t, env) then AfterFinalize(staged, s, t, env, removed) else staged
  }

  ghost predicate DeliveryRotated(fs: FileSystem, s: Settings, t: Timestamp, cutoff: Timestamp, env: BackupEnv,
                                  removed: set<string>)
    requires ValidTimestamp(t)
  {
    if StagingOk(fs, s, t, env) then FinalizeRotated(AfterStaging(fs, s, t, env), s, t, cutoff, env, removed)
    else removed == {}
  }

  /** The file system a whole backup leaves: nothing changes when validation
      fails. */
  function AfterBackup(fs: FileSystem, s: Settings, t: Timestamp, env: BackupEnv, removed: set<string>): FileSystem
    requires ValidTimestamp(t)
  {
    if Validate(fs, s, env.makeTempBaseOk) == PathsOk then AfterDelivery(Validated(fs, s), s, t, env, removed) else fs
  }

  ghost predicate BackupRotated(fs: FileSystem, s: Settings, t: Timestamp, cutoff: Timestamp, env: BackupEnv,
                                removed: set<string>)
    requires ValidTimestamp(t)
  {
    if Validate(fs, s, env.makeTempBaseOk) == PathsOk then DeliveryRotated(Validated(fs, s), s, t, cutoff, env, removed)
    else removed == {}
  }

  /** A backup whose validation fails leaves everything as it was. */
  lemma InvalidBackupLeavesAll(fs: FileSystem, s: Settings, t: Timestamp, cutoff: Timestamp, env: BackupEnv)
    requires ValidTimestamp(t) && Validate(fs, s, env.makeTempBaseOk) != PathsOk
    ensures AfterBackup(fs, s, t, env, {}) == fs && BackupRotated(fs, s, t, cutoff, env, {})
  {
  }

  /** A backup, whatever its outcome, changes nothing deeper than the
      destination's files that lies apart from its staging directory: in
      particular it leaves the live Interface and WTF trees alone unless the
      staging directory is their parent. */
  lemma {:induction false} BackupLeavesOthers(fs: FileSystem, s: Settings, t: Timestamp, env: BackupEnv,
                                              removed: set<string>, root: Path)
    requires ValidTimestamp(t) && |root| > 2 && Disjoint(TempDir(s.tempBaseDir, t), root)
    ensures Subtree(AfterBackup(fs, s, t, env, removed), root) == Subtree(fs, root)
  {
    if Validate(fs, s, env.makeTempBaseOk) == PathsOk {
      var v := Validated(fs, s);
      SubtreeOfMakeDirs(fs, Dir(s.tempBaseDir), root);
      StagingLeavesOthers(v, s, t, env, root);
      if StagingOk(v, s, t, env) {
        FinalizeLeavesOthers(AfterStaging(v, s, t, env), s, t, env, removed, root);
      }
    }
  }

  lemma StagingLeavesOthers(fs: FileSystem, s: Settings, t: Timestamp, env: BackupEnv, root: Path)
    requires ValidTimestamp(t) && |root| > 2 && Disjoint(TempDir(s.tempBaseDir, t), root)
    ensures Subtree(AfterStaging(fs, s, t, env), root) == Subtree(fs, root)
  {
    var tmp := TempDir(s.tempBaseDir, t);
    var made := MakeDirs(fs, tmp);
    var withInterface := Mirror(made, InterfaceDir(s.wowBaseDir, s.wowVersion), tmp + ["Interface"]);
    var staged := Staged(fs, s, t);
    SubtreeOfMakeDirs(fs, tmp, root);
    ChildApart(tmp, "Interface", root);
    ChildApart(tmp, "WTF", root);
    SubtreeOfMirrorDisjoint(made, InterfaceDir(s.wowBaseDir, s.wowVersion), tmp + ["Interface"], root);
    SubtreeOfMirrorDisjoint(withInterface, WtfDir(s.wowBaseDir, s.wowVersion), tmp + ["WTF"], root);
    SubtreeOfWriteFile(staged, ArchivePath(s.tempBaseDir, t),
                       ZipArchive(Compressed(staged, tmp, env.sizes, env.readFails)), root);
  }

  lemma FinalizeLeavesOthers(fs: FileSystem, s: Settings, t: Timestamp, env: BackupEnv, removed: set<string>, root: Path)
    requires ValidTimestamp(t) && |root| > 2 && Disjoint(TempDir(s.tempBaseDir, t), root)
    ensures Subtree(AfterFinalize(fs, s, t, env, removed), root) == Subtree(fs, root)
  {
    var made := MakeDirs(fs, Dir(s.destDir));
    SubtreeOfMakeDirs(fs, Dir(s.destDir), root);
    if Moved(fs, s, t, env) {
      var moved := MoveFile(made, ArchivePath(s.tempBaseDir, t), DestPath(s.destDir, t));
      SubtreeOfMoveFile(made, ArchivePath(s.tempBaseDir, t), DestPath(s.destDir, t), root);
      ClearedTree(moved, TempDir(s.tempBaseDir, t), root);
      Retention.SubtreeOfRemoveFiles(Cleaned(fs, s, t), Dir(s.destDir), removed, root);
    }
  }

  /** The live trees survive every backup whose staging directory is not
      their parent. */
  lemma BackupLeavesLiveTrees(fs: FileSystem, s: Settings, t: Timestamp, env: BackupEnv, removed: set<string>)
    requires ValidTimestamp(t) && !(s.tempBaseDir == s.wowBaseDir && Format(t) == s.wowVersion)
    ensures var after := AfterBackup(fs, s, t, env, removed);
      && Subtree(after, InterfaceDir(s.wowBaseDir, s.wowVersion)) == Subtree(fs, InterfaceDir(s.wowBaseDir, s.wowVersion))
      && Subtree(after, WtfDir(s.wowBaseDir, s.wowVersion)) == Subtree(fs, WtfDir(s.wowBaseDir, s.wowVersion))
  {
    StagingApartFromLive(s.tempBaseDir, s.wowBaseDir, s.wowVersion, t);
    BackupLeavesOthers(fs, s, t, env, removed, InterfaceDir(s.wowBaseDir, s.wowVersion));
    BackupLeavesOthers(fs, s, t, env, removed, WtfDir(s.wowBaseDir, s.wowVersion));
  }

  /** Nothing cleans up after a failure: once the staging directory is made,
      it is still there afterwards exactly when the backup did not get past
      the move. */
  lemma StagingLeftBehind(fs: FileSystem, s: Settings, t: Timestamp, env: BackupEnv, removed: set<string>)
    requires ValidTimestamp(t) && Validate(fs, s, env.makeTempBaseOk) == PathsOk && env.makeTempDirOk
    ensures var v := Validated(fs, s);
      (Exists(AfterBackup(fs, s, t, env, removed), TempDir(s.tempBaseDir, t))
       <==> !(StagingOk(v, s, t, env) && Moved(AfterStaging(v, s, t, env), s, t, env)))
  {
    var v := Validated(fs, s);
    var staged := AfterStaging(v, s, t, env);
    StagingDirMade(v, s, t, env);
    if StagingOk(v, s, t, env) {
      FinalizeRemovesStaging(staged, s, t, env, removed);
    } else {
      DirExists(staged, TempDir(s.tempBaseDir, t));
    }
  }

  /** Once made, the staging directory stays through the copies and the
      compression. */
  lemma StagingDirMade(fs: FileSystem, s: Settings, t: Timestamp, env: BackupEnv)
    requires ValidTimestamp(t) && env.makeTempDirOk
    ensures TempDir(s.tempBaseDir, t) in AfterStaging(fs, s, t, env).dirs
  {
    var tmp := TempDir(s.tempBaseDir, t);
    assert !Under(tmp, tmp + ["Interface"]) && !Under(tmp, tmp + ["WTF"]);
  }

  /** Finalizing removes the staging directory once it gets past the move,
      and before that leaves it. */
  lemma FinalizeRemovesStaging(fs: FileSystem, s: Settings, t: Timestamp, env: BackupEnv, removed: set<string>)
    requires ValidTimestamp(t) && TempDir(s.tempBaseDir, t) in fs.dirs
    ensures Exists(AfterFinalize(fs, s, t, env, removed), TempDir(s.tempBaseDir, t)) <==> !Moved(fs, s, t, env)
  {
    var tmp := TempDir(s.tempBaseDir, t);
    if Moved(fs, s, t, env) {
      var moved := MoveFile(MakeDirs(fs, Dir(s.destDir)), ArchivePath(s.tempBaseDir, t), DestPath(s.destDir, t));
      if Exists(moved, tmp) {
        RemovedTreeIsGone(moved, tmp);
      }
      Retention.ExistsAfterRemoveFiles(Cleaned(fs, s, t), Dir(s.destDir), removed, tmp);
    } else {
      DirExists(AfterFinalize(fs, s, t, env, removed), tmp);
    }
  }

  lemma DirExists(fs: FileSystem, p: Path)
    requires p in fs.dirs
    ensures Exists(fs, p)
  {
    assert Under(p, p);
  }

  // ---------------------------------------------------------------------------
  // The restore's directory replacement

  /** `_restore_directory` when its copy succeeds: whatever was at `dst` is
      removed, then `src` is copied there. */
  function Replaced(fs: FileSystem, src: Path, dst: Path): FileSystem
  {
    Mirror(Cleared(fs, dst), src, dst)
  }

  /** `fs` with the tree at `dst` removed, if there is one. */
  function Cleared(fs: FileSystem, dst: Path): FileSystem
  {
    if Exists(fs, dst) then RemoveTree(fs, dst) else fs
  }

  /** A replaced directory holds exactly what its source held, and nothing it
      held before; a directory apart from it is untouched. */
  lemma ReplacedTree(fs: FileSystem, src: Path, dst: Path, other: Path)
    requires Disjoint(src, dst) && Disjoint(dst, other)
    ensures Subtree(Replaced(fs, src, dst), dst) == Subtree(fs, src)
    ensures Subtree(Replaced(fs, src, dst), other) == Subtree(fs, other)
  {
    SubtreeOfMirror(Cleared(fs, dst), src, dst);
    SubtreeOfMirrorDisjoint(Cleared(fs, dst), src, dst, other);
    if Exists(fs, dst) {
      SubtreeOfRemoveTreeDisjoint(fs, dst, src);
      SubtreeOfRemoveTreeDisjoint(fs, dst, other);
    }
  }

  lemma ClearedTree(fs: FileSystem, dst: Path, other: Path)
    requires Disjoint(dst, other)
    ensures !Exists(Cleared(fs, dst), dst)
    ensures Subtree(Cleared(fs, dst), other) == Subtree(fs, other)
  {
    if Exists(fs, dst) {
      RemovedTreeIsGone(fs, dst);
      SubtreeOfRemoveTreeDisjoint(fs, dst, other);
    }
  }

  /** Unpacking into a directory apart from `other` leaves `other` untouched. */
  lemma ExtractElsewhere(fs: FileSystem, dir: Path, members: map<Path, Member>, writeFails: set<Path>, other: Path)
    requires Disjoint(dir, other)
    ensures Subtree(ExtractInto(fs, dir, members, writeFails), other) == Subtree(fs, other)
  {
    var t := Extractable(members, writeFails);
    SubtreeOfOverlay(MakeDirs(fs, dir), Graft(t, dir), other);
    SubtreeOfMakeDirs(fs, dir, other);
    SubtreeOfGraftDisjoint(t, dir, other);
    OverlayEmpty(Subtree(fs, other));
  }

  /** An archive with a file anywhere below `name` yields the tree `name` on
      unpacking, even when none of its entries can be written: extraction
      makes every file's folder. */
  lemma UnpackedTreeExists(fs: FileSystem, dir: Path, members: map<Path, Member>, writeFails: set<Path>, r: Path,
                           name: string)
    requires r in members && members[r].FileEntry? && |r| >= 2 && r[0] == name
    ensures Exists(ExtractInto(fs, dir, members, writeFails), dir + [name])
  {
    var after := ExtractInto(fs, dir, members, writeFails);
    var d := dir + Parent(r);
    ExtractMakesFolders(fs, dir, members, writeFails, r);
    assert Under(d, dir + [name]) by {
      assert d[..|dir| + 1] == dir + [r[0]];
    }
    if exists x :: x in after.dirs && Under(x, d) {
      var x :| x in after.dirs && Under(x, d);
      UnderTrans(x, d, dir + [name]);
    } else {
      var x :| x in after.files && Under(x, d);
      UnderTrans(x, d, dir + [name]);
    }
  }

  // ---------------------------------------------------------------------------
  // The application

  class BackupApp {
    const settings: Settings
    var fs: FileSystem
    /** Every value given to `update_progress`, in order. */
    var progress: seq<int>

    constructor(settings: Settings, fs: FileSystem)
      ensures this.settings == settings && this.fs == fs && progress == []
    {
      this.settings := settings;
      this.fs := fs;
      progress := [];
    }

    /** `_validate_backup_paths`: Interface, then WTF, must exist; a missing
        temporary base is made.  Nothing is made when a check fails. */
    method ValidateBackupPaths(makeTempBaseOk: bool) returns (outcome: Validation)
      modifies this
      ensures outcome == Validate(old(fs), settings, makeTempBaseOk)
      ensures fs == if outcome == PathsOk then Validated(old(fs), settings) else old(fs)
      ensures progress == old(progress)
    {
      outcome := PathsOk;
      if !Exists(fs, InterfaceDir(settings.wowBaseDir, settings.wowVersion)) {
        return NoInterface;
      }
      if !Exists(fs, WtfDir(settings.wowBaseDir, settings.wowVersion)) {
        return NoWtf;
      }
      if !Exists(fs, Dir(settings.tempBaseDir)) {
        if !makeTempBaseOk {
          return NoTempBase;
        }
        fs := MakeDirs(fs, Dir(settings.tempBaseDir));
      }
    }

    /** `_create_temp_directory`: reports 5, then makes the staging directory. */
    method CreateTempDirectory(tempDir: Path, makeOk: bool) returns (success: bool)
      modifies this
      ensures success == makeOk
      ensures fs == if makeOk then MakeDirs(old(fs), tempDir) else old(fs)
      ensures progress == old(progress) + [5]
    {
      progress := progress + [5];
      success := makeOk;
      if makeOk {
        fs := MakeDirs(fs, tempDir);
      }
    }

    /** `_robocopy`: a mirroring copy, or an error. */
    method Robocopy(src: Path, dst: Path, copyOk: bool) returns (success: bool)
      modifies this
      ensures success == copyOk
      ensures fs == if copyOk then Mirror(old(fs), src, dst) else old(fs)
      ensures progress == old(progress)
    {
      success := copyOk;
      if copyOk {
        fs := Mirror(fs, src, dst);
      }
    }

    /** `_copy_wow_directories`: 10, Interface, 35; 40, WTF, 65 — stopping at
        the first copy that fails. */
    method CopyWowDirectories(tempDir: Path, interfaceOk: bool, wtfOk: bool) returns (success: bool)
      modifies this
      ensures var live, wtf := InterfaceDir(settings.wowBaseDir, settings.wowVersion), WtfDir(settings.wowBaseDir, settings.wowVersion);
        && (!interfaceOk ==> !success && fs == old(fs) && progress == old(progress) + [10])
        && (interfaceOk && !wtfOk ==>
              !success && fs == Mirror(old(fs), live, tempDir + ["Interface"]) && progress == old(progress) + [10, 35, 40])
        && (interfaceOk && wtfOk ==>
              && success
              && fs == Mirror(Mirror(old(fs), live, tempDir + ["Interface"]), wtf, tempDir + ["WTF"])
              && progress == old(progress) + [10, 35, 40, 65])
    {
      progress := progress + [10];
      success := Robocopy(InterfaceDir(settings.wowBaseDir, settings.wowVersion), tempDir + ["Interface"], interfaceOk);
      if !success {
        return;
      }
      progress := progress + [35];
      progress := progress + [40];
      success := Robocopy(WtfDir(settings.wowBaseDir, settings.wowVersion), tempDir + ["WTF"], wtfOk);
      if !success {
        return;
      }
      progress := progress + [65];
    }

    /** `_compress_backup`: the compression manager packs the staging directory
        into the archive beside it; its progress values pass straight through. */
    method CompressBackup(tempDir: Path, archivePath: Path, env: BackupEnv) returns (success: bool)
      modifies this
      ensures var files := Collectable(old(fs), tempDir, env.sizes);
        && (success <==> files == {} || env.openOk)
        && (files == {} ==> fs == old(fs))
        && (files != {} && env.openOk ==>
              fs == WriteFile(old(fs), archivePath, ZipArchive(Compressed(old(fs), tempDir, env.sizes, env.readFails))))
        && (!success ==> fs == old(fs) && progress == old(progress) + [70, 75, 78])
        && (success ==> progress == old(progress) + CompressProgress(|files|))
    {
      var manager := new CompressionManager(settings.fastCompression);
      var values;
      var packed;
      packed, success, values := manager.CompressDirectory(fs, tempDir, archivePath, env.sizes, env.readFails, env.openOk);
      fs := packed;
      progress := progress + values;
    }

    /** `_finalize_backup`: reports 90, makes the destination, moves the archive
        there under the backup's name, removes the staging directory, rotates
        the destination, and finally needs the new backup to be there.
        `removed` names the backups the rotation deleted. */
    method FinalizeBackup(tempDir: Path, t: Timestamp, cutoff: Timestamp, env: BackupEnv)
      returns (success: bool, removed: set<string>)
      requires ValidTimestamp(t)
      modifies this
      ensures progress == old(progress) + [90]
      ensures var dest, archive := Dir(settings.destDir), ArchivePath(settings.tempBaseDir, t);
        && (!env.makeDestOk ==> !success && fs == old(fs) && removed == {})
        && (env.makeDestOk && (archive !in old(fs).files || !env.moveOk) ==>
              !success && fs == MakeDirs(old(fs), dest) && removed == {})
        && (env.makeDestOk && archive in old(fs).files && env.moveOk ==>
              var moved := MoveFile(MakeDirs(old(fs), dest), archive, DestPath(settings.destDir, t));
              var cleaned := Cleared(moved, tempDir);
              && Retention.Rotated(cleaned, dest, cutoff, env.removeFails, removed)
              && fs == Retention.RemoveFiles(cleaned, dest, removed)
              && (success <==> DestPath(settings.destDir, t) in fs.files))
      ensures (tempDir == TempDir(settings.tempBaseDir, t) && !Before(t, cutoff) && env.makeDestOk && env.moveOk
               && ArchivePath(settings.tempBaseDir, t) in old(fs).files) ==> success
    {
      ghost var before := fs;
      progress := progress + [90];
      removed := {};
      var dest, archive := Dir(settings.destDir), ArchivePath(settings.tempBaseDir, t);
      if !env.makeDestOk {
        return false, removed;
      }
      fs := MakeDirs(fs, dest);
      if archive !in fs.files || !env.moveOk {
        return false, removed;
      }
      fs := MoveFile(fs, archive, DestPath(settings.destDir, t));
      if Exists(fs, tempDir) {
        fs := RemoveTree(fs, tempDir);
      }
      var rotated;
      var rotatedFs;
      rotatedFs, removed, rotated := Retention.RotateBackups(fs, dest, cutoff, env.removeFails);
      fs := rotatedFs;
      success := DestPath(settings.destDir, t) in fs.files;
      if tempDir == TempDir(settings.tempBaseDir, t) && !Before(t, cutoff) {
        FinalizedBackupKept(before, settings.destDir, settings.tempBaseDir, t, cutoff, removed);
      }
    }

    /** `_create_temp_directory`, `_copy_wow_directories` and
        `_compress_backup` in turn, stopping at the first that fails; on
        success the staged trees' archive lies beside the staging directory
        (when anything was collected), and whatever fails leaves what the steps
        before it made. */
    method StageAndCompress(t: Timestamp, env: BackupEnv) returns (ok: bool)
      requires ValidTimestamp(t)
      modifies this
      ensures old(progress) <= progress
      ensures var files := Collectable(Staged(old(fs), settings, t), TempDir(settings.tempBaseDir, t), env.sizes);
        ok <==> env.makeTempDirOk && env.copyInterfaceOk && env.copyWtfOk && (files == {} || env.openOk)
      ensures fs == AfterStaging(old(fs), settings, t, env)
      ensures ok ==>
        var staged := Staged(old(fs), settings, t);
        var files := Collectable(staged, TempDir(settings.tempBaseDir, t), env.sizes);
        && progress == old(progress) + [5, 10, 35, 40, 65] + CompressProgress(|files|)
        && (files == {} ==> fs == staged)
        && (files != {} ==> fs == WriteFile(staged, ArchivePath(settings.tempBaseDir, t),
                                            ZipArchive(Compressed(staged, TempDir(settings.tempBaseDir, t), env.sizes, env.readFails))))
    {
      var tempDir := TempDir(settings.tempBaseDir, t);
      ghost var p0 := progress;
      ok := CreateTempDirectory(tempDir, env.makeTempDirOk);
      if !ok {
        return;
      }
      ok := CopyWowDirectories(tempDir, env.copyInterfaceOk, env.copyWtfOk);
      if !ok {
        return;
      }
      ghost var p1 := progress;
      assert p1 == p0 + [5, 10, 35, 40, 65];
      ok := CompressBackup(tempDir, ArchivePath(settings.tempBaseDir, t), env);
      if ok {
        ghost var n := |Collectable(Staged(old(fs), settings, t), tempDir, env.sizes)|;
        assert progress == p1 + CompressProgress(n);
      }
    }

    /** `_backup_operation` for a backup stamped `t`, rotated against `cutoff`
        (30 days before the clock).  Progress starts at 0.  A failed validation
        returns before anything is made; any later failure reports 0.  A
        success reports 0, 5, 10, 35, 40, 65, the compression's values, 90 and
        100, and leaves the archive of the staged trees at its destination.
        Whatever the outcome, the file system is what `AfterBackup` says, with
        `removed` the backups the rotation deleted. */
    method BackupOperation(t: Timestamp, cutoff: Timestamp, env: BackupEnv) returns (ok: bool, ghost removed: set<string>)
      requires ValidTimestamp(t)
      modifies this
      ensures fs == AfterBackup(old(fs), settings, t, env, removed)
      ensures BackupRotated(old(fs), settings, t, cutoff, env, removed)
      ensures Validate(old(fs), settings, env.makeTempBaseOk) != PathsOk ==>
        !ok && fs == old(fs) && progress == old(progress) + [0]
      ensures |progress| > |old(progress)| && progress[|old(progress)|] == 0
      ensures !ok && Validate(old(fs), settings, env.makeTempBaseOk) == PathsOk ==> Last(progress) == 0
      ensures ok ==> Validate(old(fs), settings, env.makeTempBaseOk) == PathsOk
                     && Delivers(Validated(old(fs), settings), settings, t, env)
      ensures (!Before(t, cutoff) && Validate(old(fs), settings, env.makeTempBaseOk) == PathsOk
               && Delivers(Validated(old(fs), settings), settings, t, env)) ==> ok
      ensures ok ==>
        var staged := Staged(Validated(old(fs), settings), settings, t);
        var files := Collectable(staged, TempDir(settings.tempBaseDir, t), env.sizes);
        && progress == old(progress) + [0, 5, 10, 35, 40, 65] + CompressProgress(|files|) + [90, 100]
        && DestPath(settings.destDir, t) in fs.files
        && (files != {} ==> fs.files[DestPath(settings.destDir, t)]
                              == ZipArchive(Compressed(staged, TempDir(settings.tempBaseDir, t), env.sizes, env.readFails)))
    {
      progress := progress + [0];
      removed := {};
      var outcome := ValidateBackupPaths(env.makeTempBaseOk);
      if outcome != PathsOk {
        return false, removed;
      }
      ghost var p1 := progress;
      ok, removed := DeliverBackup(t, cutoff, env);
      if ok {
        ghost var n := |Collectable(Staged(Validated(old(fs), settings), settings, t), TempDir(settings.tempBaseDir, t), env.sizes)|;
        assert p1 == old(progress) + [0];
        BackupProgressShape(old(progress), CompressProgress(n));
      }
    }

    /** The rest of `_backup_operation` once the paths are valid: stage,
        compress, finalize, then report 100; a failure on the way reports 0. */
    method DeliverBackup(t: Timestamp, cutoff: Timestamp, env: BackupEnv) returns (ok: bool, ghost removed: set<string>)
      requires ValidTimestamp(t)
      modifies this
      ensures fs == AfterDelivery(old(fs), settings, t, env, removed)
      ensures DeliveryRotated(old(fs), settings, t, cutoff, env, removed)
      ensures |progress| > |old(progress)| && old(progress) <= progress
      ensures !ok ==> Last(progress) == 0
      ensures ok ==> Delivers(old(fs), settings, t, env)
      ensures !Before(t, cutoff) && Delivers(old(fs), settings, t, env) ==> ok
      ensures ok ==>
        var staged := Staged(old(fs), settings, t);
        var files := Collectable(staged, TempDir(settings.tempBaseDir, t), env.sizes);
        && progress == old(progress) + [5, 10, 35, 40, 65] + CompressProgress(|files|) + [90, 100]
        && DestPath(settings.destDir, t) in fs.files
        && (files != {} ==> fs.files[DestPath(settings.destDir, t)]
                              == ZipArchive(Compressed(staged, TempDir(settings.tempBaseDir, t), env.sizes, env.readFails)))
    {
      ghost var p1 := progress;
      ghost var staged := Staged(fs, settings, t);
      ghost var n := |Collectable(staged, TempDir(settings.tempBaseDir, t), env.sizes)|;
      removed := {};
      ok := StageAndCompress(t, env);
      ghost var p2 := progress;
      if !ok {
        progress := progress + [0];
        PrefixExtended(p1, p2, [0]);
        return;
      }
      assert p2 == p1 + [5, 10, 35, 40, 65] + CompressProgress(n);
      assert ArchivePath(settings.tempBaseDir, t) in fs.files <==>
        (n == 0 ==> ArchivePath(settings.tempBaseDir, t) in staged.files);
      ok, removed := FinishBackup(t, cutoff, env);
      PrefixExtended(p1, p2, progress[|p2|..]);
      assert progress == p2 + progress[|p2|..];
    }

    /** The end of `_backup_operation`: finalize, then report 100, or 0 when
        finalizing failed.  A success leaves the staged archive at the
        backup's place. */
    method FinishBackup(t: Timestamp, cutoff: Timestamp, env: BackupEnv) returns (ok: bool, ghost removed: set<string>)
      requires ValidTimestamp(t)
      modifies this
      ensures fs == AfterFinalize(old(fs), settings, t, env, removed)
      ensures FinalizeRotated(old(fs), settings, t, cutoff, env, removed)
      ensures ok ==> progress == old(progress) + [90, 100]
      ensures !ok ==> progress == old(progress) + [90, 0]
      ensures ok ==> var archive := ArchivePath(settings.tempBaseDir, t);
        && archive in old(fs).files
        && DestPath(settings.destDir, t) in fs.files
        && fs.files[DestPath(settings.destDir, t)] == old(fs).files[archive]
      ensures ok ==> env.makeDestOk && env.moveOk
      ensures !Before(t, cutoff) && env.makeDestOk && env.moveOk && ArchivePath(settings.tempBaseDir, t) in old(fs).files ==> ok
    {
      ok, removed := MoveIntoPlace(t, cutoff, env);
      if ok {
        progress := progress + [100];
      } else {
        progress := progress + [0];
      }
    }

    /** `_finalize_backup` seen from its caller: it succeeds exactly when the
        archive can be moved into place and survives the rotation, and it
        then holds the staged archive unchanged. */
    method MoveIntoPlace(t: Timestamp, cutoff: Timestamp, env: BackupEnv) returns (ok: bool, ghost removed: set<string>)
      requires ValidTimestamp(t)
      modifies this
      ensures fs == AfterFinalize(old(fs), settings, t, env, removed)
      ensures FinalizeRotated(old(fs), settings, t, cutoff, env, removed)
      ensures progress == old(progress) + [90]
      ensures ok ==> var archive := ArchivePath(settings.tempBaseDir, t);
        && archive in old(fs).files && env.makeDestOk && env.moveOk
        && DestPath(settings.destDir, t) in fs.files
        && fs.files[DestPath(settings.destDir, t)] == old(fs).files[archive]
      ensures !Before(t, cutoff) && env.makeDestOk && env.moveOk && ArchivePath(settings.tempBaseDir, t) in old(fs).files ==> ok
    {
      ghost var before := fs;
      ok, removed := FinalizeBackup(TempDir(settings.tempBaseDir, t), t, cutoff, env);
      if ok {
        FinalizedArchive(before, settings.destDir, settings.tempBaseDir, t, removed);
      }
    }

    /** `_restore_directory`: whatever is at `dst` is removed, then `src` is
        copied there; a failed copy leaves `dst` removed and is passed on. */
    method RestoreDirectory(src: Path, dst: Path, copyOk: bool) returns (success: bool)
      modifies this
      ensures success == copyOk
      ensures fs == if copyOk then Replaced(old(fs), src, dst) else Cleared(old(fs), dst)
      ensures progress == old(progress)
    {
      if Exists(fs, dst) {
        fs := RemoveTree(fs, dst);
      }
      success := Robocopy(src, dst, copyOk);
    }

    /** `perform_restore` of the archive at `zip`, unpacked into
        `<temp_base>/restore_<t>`.  It reports 0 and stops, touching nothing
        live, when the archive is missing, fails validation or cannot be
        unpacked, or when the unpacked tree lacks `Interface` or `WTF`.  Then
        Interface is replaced (75), WTF is replaced (85), the unpacking
        directory is removed (95) and it reports 100; a failed replacement
        reports 0 and stops, leaving the unpacking directory behind. */
    method PerformRestore(zip: Path, t: Timestamp, env: RestoreEnv) returns (ok: bool)
      requires ValidTimestamp(t)
      modifies this
      ensures !Exists(old(fs), zip) ==> !ok && fs == old(fs) && progress == old(progress) + [0]
      ensures var manager := ValidationOf(old(fs), zip);
        Exists(old(fs), zip) && !manager ==> !ok && fs == old(fs) && progress == old(progress) + [0, 10]
      ensures ValidationOf(old(fs), zip) && !env.makeDirOk ==>
        !ok && fs == old(fs) && progress == old(progress) + [0, 10, 20]
      ensures ValidationOf(old(fs), zip) && env.makeDirOk ==>
        var live, wtf := InterfaceDir(settings.wowBaseDir, settings.wowVersion), WtfDir(settings.wowBaseDir, settings.wowVersion);
        var dir := RestoreDir(settings.tempBaseDir, t);
        var unpacked := ExtractInto(old(fs), dir, ArchiveAt(old(fs), zip).value, env.writeFails);
        var complete := Exists(unpacked, dir + ["Interface"]) && Exists(unpacked, dir + ["WTF"]);
        && (!complete ==> !ok && fs == unpacked && progress == old(progress) + [0, 10, 20])
        && (complete && !env.copyInterfaceOk ==>
              !ok && fs == Cleared(unpacked, live) && progress == old(progress) + [0, 10, 20, 75, 0])
        && (complete && env.copyInterfaceOk && !env.copyWtfOk ==>
              && !ok
              && fs == Cleared(Replaced(unpacked, dir + ["Interface"], live), wtf)
              && progress == old(progress) + [0, 10, 20, 75, 85, 0])
        && (complete && env.copyInterfaceOk && env.copyWtfOk ==>
              && ok
              && fs == Cleared(Replaced(Replaced(unpacked, dir + ["Interface"], live), dir + ["WTF"], wtf), dir)
              && progress == old(progress) + [0, 10, 20, 75, 85, 95, 100])
    {
      progress := progress + [0];
      ok := false;
      if !Exists(fs, zip) {
        return;
      }
      var manager := new CompressionManager(true);
      progress := progress + [10];
      if !manager.ValidateArchive(fs, zip) {
        return;
      }
      var contents := manager.ListArchiveContents(fs, zip);
      var live, wtf := InterfaceDir(settings.wowBaseDir, settings.wowVersion), WtfDir(settings.wowBaseDir, settings.wowVersion);
      var dir := RestoreDir(settings.tempBaseDir, t);
      progress := progress + [20];
      var unpackedOk, values;
      fs, unpackedOk, values := manager.DecompressArchive(fs, zip, dir, env.makeDirOk, env.writeFails);
      if !unpackedOk {
        return;
      }
      if !Exists(fs, dir + ["Interface"]) || !Exists(fs, dir + ["WTF"]) {
        return;
      }
      ghost var unpackedProgress := progress;
      assert unpackedProgress == old(progress) + [0, 10, 20];
      ok := ReplaceLiveTrees(dir, env.copyInterfaceOk, env.copyWtfOk);
      RestoreProgressShape(old(progress));
    }

    /** The second half of `perform_restore`: Interface, then WTF, replaced
        from the unpacked tree in `dir`, then `dir` removed. */
    method ReplaceLiveTrees(dir: Path, interfaceOk: bool, wtfOk: bool) returns (ok: bool)
      modifies this
      ensures var live, wtf := InterfaceDir(settings.wowBaseDir, settings.wowVersion), WtfDir(settings.wowBaseDir, settings.wowVersion);
        && (!interfaceOk ==> !ok && fs == Cleared(old(fs), live) && progress == old(progress) + [75, 0])
        && (interfaceOk && !wtfOk ==>
              !ok && fs == Cleared(Replaced(old(fs), dir + ["Interface"], live), wtf) && progress == old(progress) + [75, 85, 0])
        && (interfaceOk && wtfOk ==>
              && ok
              && fs == Cleared(Replaced(Replaced(old(fs), dir + ["Interface"], live), dir + ["WTF"], wtf), dir)
              && progress == old(progress) + [75, 85, 95, 100])
    {
      var live, wtf := InterfaceDir(settings.wowBaseDir, settings.wowVersion), WtfDir(settings.wowBaseDir, settings.wowVersion);
      ghost var p0 := progress;
      progress := progress + [75];
      ok := RestoreDirectory(dir + ["Interface"], live, interfaceOk);
      if !ok {
        progress := progress + [0];
        assert progress == p0 + [75, 0];
        return;
      }
      progress := progress + [85];
      assert progress == p0 + [75, 85];
      ok := ReplaceWtfAndClean(dir, wtfOk);
      ProgressJoin(p0, [75, 85], if wtfOk then [95, 100] else [0]);
    }

    /** The second half of the replacement: WTF is replaced, then the
        unpacking directory is removed (95) and 100 is reported; a failed copy
        reports 0 and stops. */
    method ReplaceWtfAndClean(dir: Path, wtfOk: bool) returns (ok: bool)
      modifies this
      ensures var wtf := WtfDir(settings.wowBaseDir, settings.wowVersion);
        && ok == wtfOk
        && fs == (if wtfOk then Cleared(Replaced(old(fs), dir + ["WTF"], wtf), dir) else Cleared(old(fs), wtf))
        && progress == old(progress) + (if wtfOk then [95, 100] else [0])
    {
      var wtf := WtfDir(settings.wowBaseDir, settings.wowVersion);
      ok := RestoreDirectory(dir + ["WTF"], wtf, wtfOk);
      if !ok {
        progress := progress + [0];
        return;
      }
      progress := progress + [95];
      if Exists(fs, dir) {
        fs := RemoveTree(fs, dir);
      }
      progress := progress + [100];
    }
  }

  /** `validate_archive`'s verdict on the archive at `zip`. */
  function ValidationOf(fs: FileSystem, zip: Path): bool
  {
    ArchiveAt(fs, zip).Some? && forall r :: r in ArchiveAt(fs, zip).value ==> Verifies(ArchiveAt(fs, zip).value[r])
  }

  /** After a completed restore the live Interface and WTF directories hold
      exactly the archive's two trees, whatever they held before, and the
      unpacking directory is gone.  (The layout keeps these directories apart
      unless the WoW version is named like the unpacking directory.) */
  lemma RestoredTrees(unpacked: FileSystem, s: Settings, t: Timestamp)
    requires ValidTimestamp(t)
    requires !(s.tempBaseDir == s.wowBaseDir && s.wowVersion == RestoreDirName(t))
    ensures var live, wtf := InterfaceDir(s.wowBaseDir, s.wowVersion), WtfDir(s.wowBaseDir, s.wowVersion);
      var dir := RestoreDir(s.tempBaseDir, t);
      var restored := Cleared(Replaced(Replaced(unpacked, dir + ["Interface"], live), dir + ["WTF"], wtf), dir);
      && Subtree(restored, live) == Subtree(unpacked, dir + ["Interface"])
      && Subtree(restored, wtf) == Subtree(unpacked, dir + ["WTF"])
      && !Exists(restored, dir)
  {
    var live, wtf := InterfaceDir(s.wowBaseDir, s.wowVersion), WtfDir(s.wowBaseDir, s.wowVersion);
    var dir := RestoreDir(s.tempBaseDir, t);
    LiveApartFromRestoreDir(s, t);
    LayoutDisjoint(s.tempBaseDir, s.wowBaseDir, s.wowVersion, t);
    var first := Replaced(unpacked, dir + ["Interface"], live);
    var second := Replaced(first, dir + ["WTF"], wtf);
    assert Subtree(first, live) == Subtree(unpacked, dir + ["Interface"]) &&
           Subtree(first, dir + ["WTF"]) == Subtree(unpacked, dir + ["WTF"]) by {
      ReplacedTree(unpacked, dir + ["Interface"], live, dir + ["WTF"]);
    }
    assert Subtree(second, wtf) == Subtree(first, dir + ["WTF"]) &&
           Subtree(second, live) == Subtree(first, live) by {
      ReplacedTree(first, dir + ["WTF"], wtf, live);
    }
    ClearedTree(second, dir, live);
    ClearedTree(second, dir, wtf);
  }

  lemma LiveApartFromRestoreDir(s: Settings, t: Timestamp)
    requires ValidTimestamp(t)
    requires !(s.tempBaseDir == s.wowBaseDir && s.wowVersion == RestoreDirName(t))
    ensures var live, wtf := InterfaceDir(s.wowBaseDir, s.wowVersion), WtfDir(s.wowBaseDir, s.wowVersion);
      var dir := RestoreDir(s.tempBaseDir, t);
      && Disjoint(dir, live) && Disjoint(dir, wtf)
      && Disjoint(dir + ["Interface"], live) && Disjoint(dir + ["WTF"], wtf)
      && Disjoint(live, dir + ["WTF"]) && Disjoint(wtf, dir + ["Interface"])
  {
    var live, wtf := InterfaceDir(s.wowBaseDir, s.wowVersion), WtfDir(s.wowBaseDir, s.wowVersion);
    var dir := RestoreDir(s.tempBaseDir, t);
    assert live[..2][0] != dir[0] || live[..2][1] != dir[1];
    assert wtf[..2][0] != dir[0] || wtf[..2][1] != dir[1];
    RestoreLayoutDisjoint(s.tempBaseDir, s.wowBaseDir, s.wowVersion, t);
  }

  /** When the Interface copy fails, the live Interface directory is already
      gone and WTF has not been touched: the unpacking happened elsewhere. */
  lemma FailedInterfaceCopy(fs: FileSystem, s: Settings, t: Timestamp, members: map<Path, Member>, writeFails: set<Path>)
    requires ValidTimestamp(t)
    requires !(s.tempBaseDir == s.wowBaseDir && s.wowVersion == RestoreDirName(t))
    ensures var live, wtf := InterfaceDir(s.wowBaseDir, s.wowVersion), WtfDir(s.wowBaseDir, s.wowVersion);
      var after := Cleared(ExtractInto(fs, RestoreDir(s.tempBaseDir, t), members, writeFails), live);
      !Exists(after, live) && Subtree(after, wtf) == Subtree(fs, wtf)
  {
    var live, wtf := InterfaceDir(s.wowBaseDir, s.wowVersion), WtfDir(s.wowBaseDir, s.wowVersion);
    var dir := RestoreDir(s.tempBaseDir, t);
    LiveApartFromRestoreDir(s, t);
    LayoutDisjoint(s.tempBaseDir, s.wowBaseDir, s.wowVersion, t);
    var unpacked := ExtractInto(fs, dir, members, writeFails);
    ExtractElsewhere(fs, dir, members, writeFails, wtf);
    ClearedTree(unpacked, live, wtf);
  }
}
