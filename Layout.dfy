/**
  Where the backup and restore pipelines put things.  A directory named by a
  setting is one opaque path component (the setting's text is not split at
  separators); `os.path.join` appends components, and `f"{temp_dir}.zip"`
  extends the last component.
*/
module Layout {
  import opened FileTree
  import opened BackupNames

  function Dir(setting: string): Path
  {
    [setting]
  }

  /** `<base>/<version>/Interface`, the live add-on directory. */
  function InterfaceDir(base: string, version: string): Path
  {
    [base, version, "Interface"]
  }

  /** `<base>/<version>/WTF`, the live settings directory. */
  function WtfDir(base: string, version: string): Path
  {
    [base, version, "WTF"]
  }

  /** `<temp_base>/<timestamp>`, where a backup is staged. */
  function TempDir(tempBase: string, t: Timestamp): Path
    requires ValidTimestamp(t)
  {
    [tempBase, Format(t)]
  }

  /** `f"{temp_dir}.zip"`: the archive is written beside the staging directory. */
  function ArchivePath(tempBase: string, t: Timestamp): Path
    requires ValidTimestamp(t)
  {
    [tempBase, ArchiveName(t)]
  }

  /** `<dest_dir>/<timestamp>.zip`, the backup's final place. */
  function DestPath(destDir: string, t: Timestamp): Path
    requires ValidTimestamp(t)
  {
    Dir(destDir) + [ArchiveName(t)]
  }

  /** `<temp_base>/restore_<timestamp>`, where a restore unpacks. */
  function RestoreDir(tempBase: string, t: Timestamp): Path
    requires ValidTimestamp(t)
  {
    [tempBase, RestoreDirName(t)]
  }

  /** The staging directory, its archive and the two live directories never lie
      inside one another, and neither do a staging directory's two halves.  A
      staged half and the live directory of its own name are apart unless they
      are the same path: the WoW folder named like the temporary base and the
      version named like the stamp. */
  lemma LayoutDisjoint(tempBase: string, base: string, version: string, t: Timestamp)
    requires ValidTimestamp(t)
    ensures Disjoint(TempDir(tempBase, t), ArchivePath(tempBase, t))
    ensures Disjoint(InterfaceDir(base, version), WtfDir(base, version))
    ensures Disjoint(TempDir(tempBase, t) + ["Interface"], TempDir(tempBase, t) + ["WTF"])
    ensures Disjoint(TempDir(tempBase, t) + ["Interface"], WtfDir(base, version))
    ensures Disjoint(TempDir(tempBase, t) + ["WTF"], InterfaceDir(base, version))
    ensures !Under(TempDir(tempBase, t), InterfaceDir(base, version))
    ensures !Under(TempDir(tempBase, t), WtfDir(base, version))
    ensures !Under(ArchivePath(tempBase, t), InterfaceDir(base, version))
    ensures !Under(ArchivePath(tempBase, t), WtfDir(base, version))
    ensures Disjoint(TempDir(tempBase, t) + ["Interface"], InterfaceDir(base, version))
        <==> !(tempBase == base && Format(t) == version)
    ensures Disjoint(TempDir(tempBase, t) + ["WTF"], WtfDir(base, version))
        <==> !(tempBase == base && Format(t) == version)
  {
    var tmp := TempDir(tempBase, t);
    ApartAtEnd(tmp, ArchivePath(tempBase, t));
    ApartAtEnd(InterfaceDir(base, version), WtfDir(base, version));
    ApartAtEnd(tmp + ["Interface"], tmp + ["WTF"]);
    ApartAtEnd(tmp + ["Interface"], WtfDir(base, version));
    ApartAtEnd(tmp + ["WTF"], InterfaceDir(base, version));
    if !(tempBase == base && Format(t) == version) {
      assert tempBase != base ==> (tmp + ["Interface"])[0] != InterfaceDir(base, version)[0]
                                  && (tmp + ["WTF"])[0] != WtfDir(base, version)[0];
      assert Format(t) != version ==> (tmp + ["Interface"])[1] != InterfaceDir(base, version)[1]
                                      && (tmp + ["WTF"])[1] != WtfDir(base, version)[1];
      ApartSameLength(tmp + ["Interface"], InterfaceDir(base, version));
      ApartSameLength(tmp + ["WTF"], WtfDir(base, version));
    }
  }

  /** The staging directory lies apart from a live directory unless it is
      that directory's parent: the WoW folder named like the temporary base
      and the version named like the stamp. */
  lemma StagingApartFromLive(tempBase: string, base: string, version: string, t: Timestamp)
    requires ValidTimestamp(t)
    ensures Disjoint(TempDir(tempBase, t), InterfaceDir(base, version)) <==> !(tempBase == base && Format(t) == version)
    ensures Disjoint(TempDir(tempBase, t), WtfDir(base, version)) <==> !(tempBase == base && Format(t) == version)
  {
    assert InterfaceDir(base, version)[..2] == [base, version];
    assert WtfDir(base, version)[..2] == [base, version];
  }

  /** Two different paths of one length. */
  lemma ApartSameLength(a: Path, b: Path)
    requires |a| == |b| && a != b
    ensures Disjoint(a, b)
  {
    assert a[..|b|] == a && b[..|a|] == b;
  }

  /** Two paths of one length that differ in their last component. */
  lemma ApartAtEnd(a: Path, b: Path)
    requires |a| == |b| > 0 && a[|a| - 1] != b[|b| - 1]
    ensures Disjoint(a, b)
  {
    assert a[..|b|] == a && b[..|a|] == b;
  }

  /** Each live directory lies apart from both halves of a restore's unpacked
      tree of the other name, and from the unpacking directory itself. */
  lemma RestoreLayoutDisjoint(tempBase: string, base: string, version: string, t: Timestamp)
    requires ValidTimestamp(t)
    ensures Disjoint(RestoreDir(tempBase, t) + ["Interface"], WtfDir(base, version))
    ensures Disjoint(RestoreDir(tempBase, t) + ["WTF"], InterfaceDir(base, version))
    ensures !Under(RestoreDir(tempBase, t), InterfaceDir(base, version))
    ensures !Under(RestoreDir(tempBase, t), WtfDir(base, version))
  {
    var tmp := RestoreDir(tempBase, t);
    ApartAtEnd(tmp + ["Interface"], WtfDir(base, version));
    ApartAtEnd(tmp + ["WTF"], InterfaceDir(base, version));
  }
}
