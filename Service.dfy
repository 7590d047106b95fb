/**
  The background backup service (`old/service.py`): a configuration read from
  a JSON file on every pass, path validation that writes a default temporary
  base back into that configuration, a backup pipeline whose every failure
  surfaces as an exception turned into `False`, and the loop that schedules
  backups and retries five minutes after a failure.

  The service is a class whose configuration, file system and next backup
  time change as its methods run.  Clock readings and the outcomes of the
  operating-system steps are parameters.
*/
module Service {
  import opened Wrappers
  import opened FileTree
  import opened BackupNames
  import opened Layout
  import opened Compression
  import opened Scheduling
  import Retention
  import App

  // ---------------------------------------------------------------------------
  // The configuration

  /** A JSON value as far as the service looks at it.  `Other` stands for a
      float, a list or an object, with its Python truthiness. */
  datatype Value = Bool(b: bool) | Int(i: int) | Str(s: string) | Null | Other(truthy: bool)

  type Config = map<string, Value>

  /** Python's truth value of a JSON value. */
  predicate Truthy(v: Value)
  {
    match v
    case Bool(b) => b
    case Int(i) => i != 0
    case Str(s) => s != ""
    case Null => false
    case Other(t) => t
  }

  /** `config.get(key, default)`. */
  function Get(config: Config, key: string, default: Value): Value
  {
    if key in config then config[key] else default
  }

  /** `is_scheduler_enabled`, as the loop's `if` reads it. */
  predicate IsSchedulerEnabled(config: Config)
  {
    Truthy(Get(config, "enable_scheduler", Bool(false)))
  }

  /** `get_schedule_settings`: the raw interval and unit, defaulting to 24
      and "hours". */
  function ScheduleSettings(config: Config): (Value, Value)
  {
    (Get(config, "schedule_interval", Int(24)), Get(config, "schedule_unit", Str("hours")))
  }

  /** A missing key turns the scheduler off and, once it is on, schedules
      every 24 hours. */
  lemma ConfigDefaults(config: Config)
    ensures "enable_scheduler" !in config ==> !IsSchedulerEnabled(config)
    ensures "schedule_interval" !in config && "schedule_unit" !in config ==>
      ScheduleSettings(config) == (Int(24), Str("hours"))
    ensures "schedule_interval" !in config && "schedule_unit" !in config ==>
      forall now :: CalculateNextBackupTime(now, ScheduleSettings(config).0, ScheduleSettings(config).1)
                      == Some(now + 24 * 3600)
  {
  }

  /** `calculate_next_backup_time` at the clock reading `now`: `None` when
      `timedelta` refuses the interval (anything but a number; a JSON boolean
      is one).  A unit that is not the text "minutes" or "hours" counts as
      days. */
  function CalculateNextBackupTime(now: int, interval: Value, unit: Value): (r: Option<int>)
    ensures r.Some? <==> interval.Int? || interval.Bool?
    ensures interval.Int? && unit == Str("minutes") ==> r == Some(now + interval.i * 60)
    ensures interval.Int? && unit == Str("hours") ==> r == Some(now + interval.i * 3600)
    ensures interval.Int? && unit != Str("minutes") && unit != Str("hours") ==> r == Some(now + interval.i * 86400)
    ensures interval.Bool? ==> r == Some(now + if interval.b then UnitSeconds(UnitOf(UnitText(unit))) else 0)
  {
    match IntervalOf(interval)
    case None => None
    case Some(n) => Some(now + Duration(n, UnitText(unit)))
  }

  function IntervalOf(v: Value): Option<int>
  {
    match v
    case Int(i) => Some(i)
    case Bool(b) => Some(if b then 1 else 0)
    case _ => None
  }

  /** The unit as the `==` comparisons see it: only text can equal "minutes"
      or "hours". */
  function UnitText(v: Value): string
  {
    if v.Str? then v.s else ""
  }

  // ---------------------------------------------------------------------------
  // What `validate_paths` reads and writes

  /** The installation directory and game version, when both are text (a
      value of another type makes `os.path.join` raise). */
  function BaseAndVersion(config: Config): Option<(string, string)>
  {
    match (Get(config, "wow_base_dir", Str("")), Get(config, "wow_version", Str("_retail_")))
    case (Str(b), Str(v)) => Some((b, v))
    case _ => None
  }

  /** The configuration after `validate_paths`: a falsy temporary base is
      replaced by the system default, unless the joins before it raised. */
  function Filled(config: Config, defaultTempBase: string): Config
  {
    if BaseAndVersion(config).Some? && !Truthy(Get(config, "temp_base_dir", Str("")))
    then config["temp_base_dir" := Str(defaultTempBase)]
    else config
  }

  /** The settings the configuration names, as the backup reads them: the
      directories from `validate_paths` (its temporary base after filling),
      the destination (empty when it is not text; finalizing checks it on its
      own) and the compression choice. `None` when the installation, version
      or temporary base is not text. */
  function ServiceSettings(config: Config, defaultTempBase: string): Option<App.Settings>
  {
    match (BaseAndVersion(config), Get(Filled(config, defaultTempBase), "temp_base_dir", Str("")))
    case (Some((b, v)), Str(temp)) =>
      var dest := Get(config, "dest_dir", Null);
      Some(App.Settings(b, v, temp, if dest.Str? then dest.s else "",
                        Truthy(Get(config, "fast_compression", Bool(true)))))
    case _ => None
  }

  /** Filling touches only the temporary base, leaves it truthy, is done once
      for all, and changes none of the settings the backup reads. */
  lemma FilledFacts(config: Config, defaultTempBase: string)
    ensures forall k :: k in config && k != "temp_base_dir" ==>
      k in Filled(config, defaultTempBase) && Filled(config, defaultTempBase)[k] == config[k]
    ensures Filled(config, defaultTempBase).Keys <= config.Keys + {"temp_base_dir"}
    ensures BaseAndVersion(config).Some? && defaultTempBase != "" ==> Truthy(Get(Filled(config, defaultTempBase), "temp_base_dir", Str("")))
    ensures BaseAndVersion(config).None? ==> Filled(config, defaultTempBase) == config
    ensures Filled(Filled(config, defaultTempBase), defaultTempBase) == Filled(config, defaultTempBase)
    ensures ServiceSettings(Filled(config, defaultTempBase), defaultTempBase) == ServiceSettings(config, defaultTempBase)
  {
    var f := Filled(config, defaultTempBase);
    assert Get(f, "wow_base_dir", Str("")) == Get(config, "wow_base_dir", Str(""));
    assert Get(f, "wow_version", Str("_retail_")) == Get(config, "wow_version", Str("_retail_"));
    assert Get(f, "dest_dir", Null) == Get(config, "dest_dir", Null);
    assert Get(f, "fast_compression", Bool(true)) == Get(config, "fast_compression", Bool(true));
  }

  /** Everything a service backup needs to succeed, in the order it needs it:
      valid paths, then what `ArchiveDelivered` lists. */
  predicate BackupSucceeds(fs: FileSystem, config: Config, defaultTempBase: string, t: Timestamp, env: App.BackupEnv)
    requires ValidTimestamp(t)
  {
    var settings := ServiceSettings(config, defaultTempBase);
    && settings.Some?
    && App.Validate(fs, settings.value, env.makeTempBaseOk) == App.PathsOk
    && ArchiveDelivered(App.Validated(fs, settings.value), config, settings.value, t, env)
  }

  /** What a backup needs once its paths are valid (`validated` is the file
      system then): what the GUI's delivery needs, and besides both copy keys
      present in the configuration and a textual destination. */
  predicate ArchiveDelivered(validated: FileSystem, config: Config, s: App.Settings, t: Timestamp, env: App.BackupEnv)
    requires ValidTimestamp(t)
  {
    && "wow_base_dir" in config && "wow_version" in config
    && "dest_dir" in config && config["dest_dir"].Str?
    && App.Delivers(validated, s, t, env)
  }

  /** Filling in the temporary base leaves the keys a delivery reads alone. */
  lemma FilledDelivers(validated: FileSystem, config: Config, defaultTempBase: string, s: App.Settings, t: Timestamp, env: App.BackupEnv)
    requires ValidTimestamp(t)
    ensures ArchiveDelivered(validated, Filled(config, defaultTempBase), s, t, env) <==> ArchiveDelivered(validated, config, s, t, env)
  {
    FilledFacts(config, defaultTempBase);
  }

  /** The file system once the paths are validated, the staging directory is
      made and both live trees are copied into it. */
  function Staging(fs: FileSystem, s: App.Settings, t: Timestamp): FileSystem
    requires ValidTimestamp(t)
  {
    App.Staged(App.Validated(fs, s), s, t)
  }

  /** The GUI's step outcomes as the service meets them: its copy step also
      raises before copying anything when either directory key is missing
      (`config[...]`), and its finalize before making anything when
      `dest_dir` is not text. */
  function ServiceEnv(config: Config, env: App.BackupEnv): App.BackupEnv
  {
    env.(copyInterfaceOk := env.copyInterfaceOk && "wow_base_dir" in config && "wow_version" in config,
         makeDestOk := env.makeDestOk && "dest_dir" in config && config["dest_dir"].Str?)
  }

  /** What one `perform_backup` from `fs` under `config` did when it returned
      `ok`, left `fs'` and had its rotation delete `removed`. */
  ghost predicate PerformedBackup(fs: FileSystem, config: Config, defaultTempBase: string, t: Timestamp, cutoff: Timestamp,
                                  env: App.BackupEnv, ok: bool, fs': FileSystem, removed: set<string>)
    requires ValidTimestamp(t)
  {
    BackupLeft(fs, config, defaultTempBase, t, cutoff, env, ok, fs', removed)
    && BackupOutcome(fs, config, defaultTempBase, t, cutoff, env, ok, fs')
  }

  /** The file system a `perform_backup` leaves: nothing changes when the
      settings are unreadable, and otherwise it is what the GUI's steps
      leave, met as `ServiceEnv` says. */
  ghost predicate BackupLeft(fs: FileSystem, config: Config, defaultTempBase: string, t: Timestamp, cutoff: Timestamp,
                             env: App.BackupEnv, ok: bool, fs': FileSystem, removed: set<string>)
    requires ValidTimestamp(t)
  {
    var settings := ServiceSettings(config, defaultTempBase);
    && (settings.None? ==> !ok && fs' == fs && removed == {})
    && (settings.Some? ==>
          && fs' == App.AfterBackup(fs, settings.value, t, ServiceEnv(config, env), removed)
          && App.BackupRotated(fs, settings.value, t, cutoff, ServiceEnv(config, env), removed))
  }

  /** What a `perform_backup` returns: a success only when everything
      `BackupSucceeds` lists went through, leaving the archive of the staged
      trees at the destination, and a success whenever it did and the backup
      is dated on or after the cutoff. */
  ghost predicate BackupOutcome(fs: FileSystem, config: Config, defaultTempBase: string, t: Timestamp, cutoff: Timestamp,
                                env: App.BackupEnv, ok: bool, fs': FileSystem)
    requires ValidTimestamp(t)
  {
    && (ok ==> BackupSucceeds(fs, config, defaultTempBase, t, env))
    && (ok ==>
          var s := ServiceSettings(config, defaultTempBase).value;
          var staged := Staging(fs, s, t);
          var files := Collectable(staged, TempDir(s.tempBaseDir, t), env.sizes);
          && DestPath(s.destDir, t) in fs'.files
          && (files != {} ==> fs'.files[DestPath(s.destDir, t)]
                                == ZipArchive(Compressed(staged, TempDir(s.tempBaseDir, t), env.sizes, env.readFails))))
    && (!Before(t, cutoff) && BackupSucceeds(fs, config, defaultTempBase, t, env) ==> ok)
  }

  /** A `perform_backup` whose settings are unreadable or whose paths are
      invalid changes nothing and fails. */
  lemma NothingPerformed(fs: FileSystem, config: Config, defaultTempBase: string, t: Timestamp, cutoff: Timestamp,
                         env: App.BackupEnv)
    requires ValidTimestamp(t)
    requires var settings := ServiceSettings(config, defaultTempBase);
      settings.None? || App.Validate(fs, settings.value, env.makeTempBaseOk) != App.PathsOk
    ensures PerformedBackup(fs, config, defaultTempBase, t, cutoff, env, false, fs, {})
  {
    NothingLeft(fs, config, defaultTempBase, t, cutoff, env);
    NoOutcome(fs, config, defaultTempBase, t, cutoff, env);
  }

  /** The file system half of `NothingPerformed`. */
  lemma NothingLeft(fs: FileSystem, config: Config, defaultTempBase: string, t: Timestamp, cutoff: Timestamp,
                    env: App.BackupEnv)
    requires ValidTimestamp(t)
    requires var settings := ServiceSettings(config, defaultTempBase);
      settings.None? || App.Validate(fs, settings.value, env.makeTempBaseOk) != App.PathsOk
    ensures BackupLeft(fs, config, defaultTempBase, t, cutoff, env, false, fs, {})
  {
    var settings := ServiceSettings(config, defaultTempBase);
    if settings.Some? {
      App.InvalidBackupLeavesAll(fs, settings.value, t, cutoff, ServiceEnv(config, env));
    }
  }

  /** The outcome half of `NothingPerformed`. */
  lemma NoOutcome(fs: FileSystem, config: Config, defaultTempBase: string, t: Timestamp, cutoff: Timestamp,
                  env: App.BackupEnv)
    requires ValidTimestamp(t)
    requires var settings := ServiceSettings(config, defaultTempBase);
      settings.None? || App.Validate(fs, settings.value, env.makeTempBaseOk) != App.PathsOk
    ensures BackupOutcome(fs, config, defaultTempBase, t, cutoff, env, false, fs)
  {
  }

  /** What `DeliverBackup` promises, from the file system `validated` it
      starts on, under the filled configuration `config`. */
  ghost predicate Delivered(validated: FileSystem, config: Config, s: App.Settings, t: Timestamp, cutoff: Timestamp,
                            env: App.BackupEnv, ok: bool, fs': FileSystem, removed: set<string>)
    requires ValidTimestamp(t)
  {
    && fs' == App.AfterDelivery(validated, s, t, ServiceEnv(config, env), removed)
    && App.DeliveryRotated(validated, s, t, cutoff, ServiceEnv(config, env), removed)
    && (ok ==> ArchiveDelivered(validated, config, s, t, env))
    && (ok ==>
          var staged := App.Staged(validated, s, t);
          var files := Collectable(staged, TempDir(s.tempBaseDir, t), env.sizes);
          && DestPath(s.destDir, t) in fs'.files
          && (files != {} ==> fs'.files[DestPath(s.destDir, t)]
                                == ZipArchive(Compressed(staged, TempDir(s.tempBaseDir, t), env.sizes, env.readFails))))
    && (!Before(t, cutoff) && ArchiveDelivered(validated, config, s, t, env) ==> ok)
  }

  /** A `perform_backup` whose paths were valid did what its delivery did. */
  lemma PerformedByDelivery(fs: FileSystem, config: Config, defaultTempBase: string, t: Timestamp, cutoff: Timestamp,
                            env: App.BackupEnv, ok: bool, fs': FileSystem, removed: set<string>)
    requires ValidTimestamp(t)
    ensures var settings := ServiceSettings(config, defaultTempBase);
      && settings.Some?
      && App.Validate(fs, settings.value, env.makeTempBaseOk) == App.PathsOk
      && Delivered(App.Validated(fs, settings.value), Filled(config, defaultTempBase), settings.value, t, cutoff,
                   env, ok, fs', removed)
      ==> PerformedBackup(fs, config, defaultTempBase, t, cutoff, env, ok, fs', removed)
  {
    var settings := ServiceSettings(config, defaultTempBase);
    if settings.Some? {
      FilledFacts(config, defaultTempBase);
      LeftByDelivery(fs, config, defaultTempBase, t, cutoff, env, ok, fs', removed);
      OutcomeByDelivery(fs, config, defaultTempBase, t, cutoff, env, ok, fs', removed);
    }
  }

  /** The file system half of `PerformedByDelivery`. */
  lemma LeftByDelivery(fs: FileSystem, config: Config, defaultTempBase: string, t: Timestamp, cutoff: Timestamp,
                       env: App.BackupEnv, ok: bool, fs': FileSystem, removed: set<string>)
    requires ValidTimestamp(t) && ServiceSettings(config, defaultTempBase).Some?
    requires ServiceEnv(Filled(config, defaultTempBase), env) == ServiceEnv(config, env)
    ensures var s := ServiceSettings(config, defaultTempBase).value;
      var validated := App.Validated(fs, s);
      && App.Validate(fs, s, env.makeTempBaseOk) == App.PathsOk
      && Delivered(validated, Filled(config, defaultTempBase), s, t, cutoff, env, ok, fs', removed)
      ==> BackupLeft(fs, config, defaultTempBase, t, cutoff, env, ok, fs', removed)
  {
  }

  /** The outcome half of `PerformedByDelivery`. */
  lemma OutcomeByDelivery(fs: FileSystem, config: Config, defaultTempBase: string, t: Timestamp, cutoff: Timestamp,
                          env: App.BackupEnv, ok: bool, fs': FileSystem, removed: set<string>)
    requires ValidTimestamp(t) && ServiceSettings(config, defaultTempBase).Some?
    ensures var s := ServiceSettings(config, defaultTempBase).value;
      var validated := App.Validated(fs, s);
      && App.Validate(fs, s, env.makeTempBaseOk) == App.PathsOk
      && Delivered(validated, Filled(config, defaultTempBase), s, t, cutoff, env, ok, fs', removed)
      ==> BackupOutcome(fs, config, defaultTempBase, t, cutoff, env, ok, fs')
  {
    var s := ServiceSettings(config, defaultTempBase).value;
    var validated := App.Validated(fs, s);
    if App.Validate(fs, s, env.makeTempBaseOk) == App.PathsOk {
      FilledDelivers(validated, config, defaultTempBase, s, t, env);
      assert BackupSucceeds(fs, config, defaultTempBase, t, env)
        <==> ArchiveDelivered(validated, Filled(config, defaultTempBase), s, t, env);
    }
  }

  // ---------------------------------------------------------------------------
  // The service

  class BackupService {
    /** `<system temp>/WoWBackup`, one path component. */
    const defaultTempBase: string
    var config: Config
    var fs: FileSystem
    /** `next_backup_time`, in seconds. */
    var next: Option<int>

    constructor(fs: FileSystem, defaultTempBase: string)
      ensures this.fs == fs && this.defaultTempBase == defaultTempBase
      ensures config == map[] && next == None
    {
      this.defaultTempBase := defaultTempBase;
      this.fs := fs;
      config := map[];
      next := None;
    }

    /** `load_config`: `parsed` is what `json.load` returns, `None` when it
        raises.  A missing or unreadable file leaves the configuration as it
        was. */
    method LoadConfig(fileExists: bool, parsed: Option<Config>) returns (loaded: bool)
      modifies this
      ensures loaded <==> fileExists && parsed.Some?
      ensures config == if loaded then parsed.value else old(config)
      ensures fs == old(fs) && next == old(next)
    {
      if !fileExists {
        return false;
      }
      if parsed.None? {
        return false;
      }
      config := parsed.value;
      loaded := true;
    }

    /** `validate_paths`: a falsy temporary base becomes the default and is
        written back; then Interface, WTF and the temporary base are checked
        in that order, the last made when it is missing. */
    method ValidatePaths(makeTempBaseOk: bool) returns (valid: bool)
      modifies this
      ensures config == Filled(old(config), defaultTempBase)
      ensures next == old(next)
      ensures ServiceSettings(old(config), defaultTempBase).None? ==> !valid && fs == old(fs)
      ensures ServiceSettings(old(config), defaultTempBase).Some? ==>
        var s := ServiceSettings(old(config), defaultTempBase).value;
        && (valid <==> App.Validate(old(fs), s, makeTempBaseOk) == App.PathsOk)
        && fs == if valid then App.Validated(old(fs), s) else old(fs)
    {
      var names := BaseAndVersion(config);
      if names.None? {
        return false;
      }
      var (base, version) := names.value;
      if !Truthy(Get(config, "temp_base_dir", Str(""))) {
        config := config["temp_base_dir" := Str(defaultTempBase)];
      }
      var temp := config["temp_base_dir"];
      if !temp.Str? {
        return false;
      }
      if !Exists(fs, InterfaceDir(base, version)) {
        return false;
      }
      if !Exists(fs, WtfDir(base, version)) {
        return false;
      }
      if !Exists(fs, Dir(temp.s)) {
        if !makeTempBaseOk {
          return false;
        }
        fs := MakeDirs(fs, Dir(temp.s));
      }
      valid := true;
    }

    /** `copy_wow_directories`: both keys must be present (`config[...]`),
        then Interface and WTF are copied in turn, the first failure raising. */
    method CopyWowDirectories(tempDir: Path, interfaceOk: bool, wtfOk: bool) returns (success: bool)
      modifies this
      ensures config == old(config) && next == old(next)
      ensures var keys := "wow_base_dir" in config && config["wow_base_dir"].Str?
                          && "wow_version" in config && config["wow_version"].Str?;
        && (success <==> keys && interfaceOk && wtfOk)
        && (!keys || !interfaceOk ==> fs == old(fs))
        && (keys && interfaceOk ==>
              var live := InterfaceDir(config["wow_base_dir"].s, config["wow_version"].s);
              var wtf := WtfDir(config["wow_base_dir"].s, config["wow_version"].s);
              var withInterface := Mirror(old(fs), live, tempDir + ["Interface"]);
              fs == if wtfOk then Mirror(withInterface, wtf, tempDir + ["WTF"]) else withInterface)
    {
      if !("wow_base_dir" in config && config["wow_base_dir"].Str?
           && "wow_version" in config && config["wow_version"].Str?) {
        return false;
      }
      var base, version := config["wow_base_dir"].s, config["wow_version"].s;
      if !interfaceOk {
        return false;
      }
      fs := Mirror(fs, InterfaceDir(base, version), tempDir + ["Interface"]);
      if !wtfOk {
        return false;
      }
      fs := Mirror(fs, WtfDir(base, version), tempDir + ["WTF"]);
      success := true;
    }

    /** `compress_backup`: the manager packs the staging directory into the
        archive beside it; a `False` from it raises. */
    method CompressBackup(tempDir: Path, archivePath: Path, env: App.BackupEnv) returns (success: bool)
      modifies this
      ensures config == old(config) && next == old(next)
      ensures var files := Collectable(old(fs), tempDir, env.sizes);
        && (success <==> files == {} || env.openOk)
        && fs == if files != {} && env.openOk
                 then WriteFile(old(fs), archivePath, ZipArchive(Compressed(old(fs), tempDir, env.sizes, env.readFails)))
                 else old(fs)
    {
      var manager := new CompressionManager(Truthy(Get(config, "fast_compression", Bool(true))));
      var values;
      var packed;
      packed, success, values := manager.CompressDirectory(fs, tempDir, archivePath, env.sizes, env.readFails, env.openOk);
      fs := packed;
    }

    /** `rotate_backups`: the GUI's policy over the textual destination; a
        missing key or a failed removal ends it quietly.  It returns the file
        system it leaves and the backups it deleted. */
    method RotateBackups(cutoff: Timestamp, removeFails: set<string>) returns (rotated: FileSystem, removed: set<string>)
      ensures !("dest_dir" in config && config["dest_dir"].Str?) ==> rotated == fs && removed == {}
      ensures "dest_dir" in config && config["dest_dir"].Str? ==>
        var dest := Dir(config["dest_dir"].s);
        && Retention.Rotated(fs, dest, cutoff, removeFails, removed)
        && rotated == Retention.RemoveFiles(fs, dest, removed)
    {
      rotated, removed := fs, {};
      if !("dest_dir" in config && config["dest_dir"].Str?) {
        return;
      }
      var finished;
      rotated, removed, finished := Retention.RotateBackups(fs, Dir(config["dest_dir"].s), cutoff, removeFails);
    }

    /** `finalize_backup`: make the destination, move the archive there under
        the backup's name, remove the staging directory, rotate, and read the
        new backup's size, which raises when it is gone. */
    method FinalizeBackup(tempDir: Path, t: Timestamp, archivePath: Path, cutoff: Timestamp, env: App.BackupEnv)
      returns (success: bool, removed: set<string>)
      requires ValidTimestamp(t)
      modifies this
      ensures config == old(config) && next == old(next)
      ensures !("dest_dir" in config && config["dest_dir"].Str?) || !env.makeDestOk ==>
        !success && fs == old(fs) && removed == {}
      ensures "dest_dir" in config && config["dest_dir"].Str? && env.makeDestOk ==>
        var destDir := config["dest_dir"].s;
        var made := MakeDirs(old(fs), Dir(destDir));
        && (archivePath !in old(fs).files || !env.moveOk ==> !success && fs == made && removed == {})
        && (archivePath in old(fs).files && env.moveOk ==>
              var cleaned := App.Cleared(MoveFile(made, archivePath, DestPath(destDir, t)), tempDir);
              && Retention.Rotated(cleaned, Dir(destDir), cutoff, env.removeFails, removed)
              && fs == Retention.RemoveFiles(cleaned, Dir(destDir), removed)
              && (success <==> DestPath(destDir, t) in fs.files))
    {
      removed := {};
      if !("dest_dir" in config && config["dest_dir"].Str?) {
        return false, removed;
      }
      var destDir := config["dest_dir"].s;
      if !env.makeDestOk {
        return false, removed;
      }
      fs := MakeDirs(fs, Dir(destDir));
      if archivePath !in fs.files || !env.moveOk {
        return false, removed;
      }
      fs := MoveFile(fs, archivePath, DestPath(destDir, t));
      ghost var cleaned;
      success, removed, cleaned := ClearAndRotate(tempDir, destDir, t, cutoff, env.removeFails);
    }

    /** The end of `finalize_backup`, once the archive is moved: remove the
        staging directory, rotate, and look for the new backup.  The rotation
        is `rotate_backups`'s, over the textual `dest_dir` this step has just
        read; `cleaned` is the file system it starts from. */
    method ClearAndRotate(tempDir: Path, destDir: string, t: Timestamp, cutoff: Timestamp, removeFails: set<string>)
      returns (success: bool, removed: set<string>, ghost cleaned: FileSystem)
      requires ValidTimestamp(t)
      requires "dest_dir" in config && config["dest_dir"] == Str(destDir)
      modifies this
      ensures config == old(config) && next == old(next)
      ensures cleaned == App.Cleared(old(fs), tempDir)
      ensures Retention.Rotated(cleaned, Dir(destDir), cutoff, removeFails, removed)
      ensures fs == Retention.RemoveFiles(cleaned, Dir(destDir), removed)
      ensures success <==> DestPath(destDir, t) in fs.files
    {
      var cleared := fs;
      if Exists(cleared, tempDir) {
        cleared := RemoveTree(cleared, tempDir);
      }
      cleaned := cleared;
      var rotated, finished;
      rotated, removed, finished := Retention.RotateBackups(cleared, Dir(destDir), cutoff, removeFails);
      fs := rotated;
      success := DestPath(destDir, t) in fs.files;
    }

    /** `perform_backup` for a backup stamped `t`, rotated against `cutoff`
        (30 days before the clock).  Invalid paths change nothing on disk.  A
        success needs every step to have gone through, including something
        to archive, and leaves the archive of the staged trees at the
        destination; a backup dated on or after the cutoff succeeds whenever
        every step goes through.  Whatever the outcome, the file system is
        what `PerformedBackup` says. */
    method PerformBackup(t: Timestamp, cutoff: Timestamp, env: App.BackupEnv) returns (ok: bool, ghost removed: set<string>)
      requires ValidTimestamp(t)
      modifies this
      ensures config == Filled(old(config), defaultTempBase) && next == old(next)
      ensures var settings := ServiceSettings(old(config), defaultTempBase);
        settings.None? || App.Validate(old(fs), settings.value, env.makeTempBaseOk) != App.PathsOk ==>
          !ok && fs == old(fs)
      ensures PerformedBackup(old(fs), old(config), defaultTempBase, t, cutoff, env, ok, fs, removed)
    {
      ghost var config0 := config;
      removed := {};
      ok := ValidatePaths(env.makeTempBaseOk);
      if ok {
        FilledFacts(config0, defaultTempBase);
        var s := ServiceSettings(config, defaultTempBase).value;
        ok, removed := DeliverBackup(s, t, cutoff, env);
        PerformedByDelivery(old(fs), config0, defaultTempBase, t, cutoff, env, ok, fs, removed);
      } else {
        NothingPerformed(old(fs), config0, defaultTempBase, t, cutoff, env);
      }
    }

    /** `perform_backup` once the paths are valid: stage, compress, finalize.
        A success leaves the archive of the staged trees at the backup's
        place, and every step going through succeeds unless rotation takes
        the new backup itself. */
    method DeliverBackup(s: App.Settings, t: Timestamp, cutoff: Timestamp, env: App.BackupEnv)
      returns (ok: bool, ghost removed: set<string>)
      requires ValidTimestamp(t)
      requires ServiceSettings(config, defaultTempBase) == Some(s)
      modifies this
      ensures config == old(config) && next == old(next)
      ensures Delivered(old(fs), config, s, t, cutoff, env, ok, fs, removed)
    {
      removed := {};
      ok := StageAndCompress(s, t, env);
      if !ok {
        return;
      }
      ok, removed := MoveIntoPlace(s, t, cutoff, env);
    }

    /** `finalize_backup` of the staged archive, seen from `perform_backup`:
        the file system it leaves is the GUI's finalize's, met as
        `ServiceEnv` says, and it succeeds exactly when the archive is moved
        into place and survives the rotation, which a backup dated on or
        after the cutoff does. */
    method MoveIntoPlace(s: App.Settings, t: Timestamp, cutoff: Timestamp, env: App.BackupEnv)
      returns (ok: bool, ghost removed: set<string>)
      requires ValidTimestamp(t)
      requires ServiceSettings(config, defaultTempBase) == Some(s)
      modifies this
      ensures config == old(config) && next == old(next)
      ensures fs == App.AfterFinalize(old(fs), s, t, ServiceEnv(config, env), removed)
      ensures App.FinalizeRotated(old(fs), s, t, cutoff, ServiceEnv(config, env), removed)
      ensures ok ==> var archive := ArchivePath(s.tempBaseDir, t);
        && App.Moved(old(fs), s, t, ServiceEnv(config, env))
        && DestPath(s.destDir, t) in fs.files
        && fs.files[DestPath(s.destDir, t)] == old(fs).files[archive]
      ensures !Before(t, cutoff) && App.Moved(old(fs), s, t, ServiceEnv(config, env)) ==> ok
    {
      ghost var before := fs;
      ghost var moved := App.Moved(before, s, t, ServiceEnv(config, env));
      ok, removed := FinalizeBackup(TempDir(s.tempBaseDir, t), t, ArchivePath(s.tempBaseDir, t), cutoff, env);
      if moved {
        assert config["dest_dir"].s == s.destDir;
        ghost var cleaned := App.Cleaned(before, s, t);
        assert Retention.Rotated(cleaned, Dir(s.destDir), cutoff, env.removeFails, removed);
        assert fs == Retention.RemoveFiles(cleaned, Dir(s.destDir), removed);
        App.FinalizedArchive(before, s.destDir, s.tempBaseDir, t, removed);
        if !Before(t, cutoff) {
          App.FinalizedBackupKept(before, s.destDir, s.tempBaseDir, t, cutoff, removed);
        }
      }
    }

    /** The middle of `perform_backup`: make the staging directory, copy both
        live trees into it and compress it. */
    method StageAndCompress(s: App.Settings, t: Timestamp, env: App.BackupEnv) returns (ok: bool)
      requires ValidTimestamp(t)
      requires ServiceSettings(config, defaultTempBase) == Some(s)
      modifies this
      ensures config == old(config) && next == old(next)
      ensures var staged := App.Staged(old(fs), s, t);
        var files := Collectable(staged, TempDir(s.tempBaseDir, t), env.sizes);
        && (ok <==> env.makeTempDirOk && "wow_base_dir" in config && "wow_version" in config
                    && env.copyInterfaceOk && env.copyWtfOk && (files == {} || env.openOk))
        && (ok ==> fs == if files == {} then staged
                         else WriteFile(staged, ArchivePath(s.tempBaseDir, t),
                                        ZipArchive(Compressed(staged, TempDir(s.tempBaseDir, t), env.sizes, env.readFails))))
      ensures fs == App.AfterStaging(old(fs), s, t, ServiceEnv(config, env))
    {
      var tempDir := TempDir(s.tempBaseDir, t);
      ghost var senv := ServiceEnv(config, env);
      if !env.makeTempDirOk {
        return false;
      }
      fs := MakeDirs(fs, tempDir);
      ghost var made := fs;
      assert "wow_base_dir" in config ==> config["wow_base_dir"] == Str(s.wowBaseDir);
      assert "wow_version" in config ==> config["wow_version"] == Str(s.wowVersion);
      ok := CopyWowDirectories(tempDir, env.copyInterfaceOk, env.copyWtfOk);
      if !ok {
        assert !senv.copyInterfaceOk ==> fs == made;
        return;
      }
      assert fs == App.Staged(old(fs), s, t);
      ok := CompressBackup(tempDir, ArchivePath(s.tempBaseDir, t), env);
    }

    /** `run_service`, one pass: reload the configuration, then take the
        scheduling step under it. */
    method Tick(fileExists: bool, parsed: Option<Config>, current: int, setClock: int, doneClock: int,
                t: Timestamp, cutoff: Timestamp, env: App.BackupEnv)
      returns (fired: bool, backupOk: bool, ghost removed: set<string>)
      requires ValidTimestamp(t)
      modifies this
      ensures var loaded := if fileExists && parsed.Some? then parsed.value else old(config);
        PassTaken(loaded, defaultTempBase, old(fs), old(next), current, setClock, doneClock, t, cutoff, env, removed,
                  fired, backupOk, config, fs, next)
    {
      var loaded := LoadConfig(fileExists, parsed);
      fired, backupOk, removed := Pass(current, setClock, doneClock, t, cutoff, env);
    }

    /** The rest of a pass once the configuration is loaded: when the
        scheduler is on, set the first time if there is none, and run a
        backup once the clock reaches it.  `current` is the clock at the top
        of the pass, `setClock` when the first time is computed, `doneClock`
        after the backup; `t` is the backup's stamp.  An interval `timedelta`
        refuses raises out of the pass, which leaves the time as it was. */
    method Pass(current: int, setClock: int, doneClock: int, t: Timestamp, cutoff: Timestamp, env: App.BackupEnv)
      returns (fired: bool, backupOk: bool, ghost removed: set<string>)
      requires ValidTimestamp(t)
      modifies this
      ensures PassTaken(old(config), defaultTempBase, old(fs), old(next), current, setClock, doneClock, t, cutoff, env, removed,
                        fired, backupOk, config, fs, next)
    {
      backupOk, removed := false, {};
      if !IsSchedulerEnabled(config) {
        next := None;
        return false, false, removed;
      }
      var (interval, unit) := ScheduleSettings(config);
      var due := next;
      if due.None? {
        due := CalculateNextBackupTime(setClock, interval, unit);
        if due.None? {
          return false, false, removed;
        }
      }
      if current < due.value {
        next := due;
        return false, false, removed;
      }
      fired := true;
      backupOk, removed := Fire(current, setClock, doneClock, t, cutoff, env);
    }

    /** The firing half of a pass, once the scheduler is on and the time
        (the one set, or else the one computed at `setClock`) is reached: one
        backup, then the next time one interval after `doneClock`, or a retry
        after a failure; when the interval is refused the time stays as it
        was found. */
    method Fire(current: int, setClock: int, doneClock: int, t: Timestamp, cutoff: Timestamp, env: App.BackupEnv)
      returns (backupOk: bool, ghost removed: set<string>)
      requires ValidTimestamp(t)
      requires IsSchedulerEnabled(config)
      requires var (interval, unit) := ScheduleSettings(config);
        var due := if next.Some? then next else CalculateNextBackupTime(setClock, interval, unit);
        due.Some? && current >= due.value
      modifies this
      ensures PassTaken(old(config), defaultTempBase, old(fs), old(next), current, setClock, doneClock, t, cutoff, env, removed,
                        true, backupOk, config, fs, next)
    {
      var (interval, unit) := ScheduleSettings(config);
      var due := if next.Some? then next.value else CalculateNextBackupTime(setClock, interval, unit).value;
      backupOk, removed := PerformBackup(t, cutoff, env);
      if !backupOk {
        next := Some(current + RetryDelay);
        FiredPass(old(config), defaultTempBase, old(fs), old(next), current, setClock, doneClock, backupOk, config, fs, next);
        return;
      }
      var after := CalculateNextBackupTime(doneClock, interval, unit);
      next := if after.Some? then after else Some(due);
      FiredPass(old(config), defaultTempBase, old(fs), old(next), current, setClock, doneClock, backupOk, config, fs, next);
    }
  }

  /** What one pass of `run_service` does under the configuration `loaded`:
      a pass that runs no backup changes nothing but the time; a disabled
      scheduler forgets the time; an enabled one with a usable interval takes
      the scheduling step, and with an unusable one runs a backup only when
      a time was already set, rescheduling only after a failure.  A pass
      that fires runs one `perform_backup` under `loaded`, stamped `t` and
      rotated against `cutoff`. */
  ghost predicate PassTaken(loaded: Config, defaultTempBase: string, fs: FileSystem, next: Option<int>, current: int, setClock: int,
                            doneClock: int, t: Timestamp, cutoff: Timestamp, env: App.BackupEnv, removed: set<string>,
                            fired: bool, backupOk: bool, config': Config, fs': FileSystem, next': Option<int>)
    requires ValidTimestamp(t)
  {
    && PassScheduled(loaded, defaultTempBase, fs, next, current, setClock, doneClock, fired, backupOk, config', fs', next')
    && (fired ==> PerformedBackup(fs, loaded, defaultTempBase, t, cutoff, env, backupOk, fs', removed))
  }

  /** The scheduling half of `PassTaken`: which passes fire, what the time
      becomes, and that a pass that runs no backup changes nothing else. */
  predicate PassScheduled(loaded: Config, defaultTempBase: string, fs: FileSystem, next: Option<int>, current: int, setClock: int,
                          doneClock: int, fired: bool, backupOk: bool, config': Config, fs': FileSystem, next': Option<int>)
  {
    && (!fired ==> fs' == fs && config' == loaded && !backupOk)
    && (fired ==> IsSchedulerEnabled(loaded) && config' == Filled(loaded, defaultTempBase))
    && (!IsSchedulerEnabled(loaded) ==> next' == None && !fired)
    && (IsSchedulerEnabled(loaded) ==>
          var (interval, unit) := ScheduleSettings(loaded);
          match IntervalOf(interval)
          case Some(n) =>
            var step := ServiceTick(next, true, n, UnitText(unit), current, setClock, backupOk, doneClock);
            next' == step.next && fired == step.fired
          case None =>
            && (fired <==> next.Some? && current >= next.value)
            && next' == if fired && !backupOk then Some(current + RetryDelay) else next)
  }

  /** A pass that fires at the time it found, or else at the one it
      computed at `setClock`, and reschedules as `run_service` does, is
      scheduled as `PassScheduled` says. */
  lemma FiredPass(loaded: Config, defaultTempBase: string, fs: FileSystem, next: Option<int>, current: int, setClock: int,
                  doneClock: int, backupOk: bool, config': Config, fs': FileSystem, next': Option<int>)
    requires IsSchedulerEnabled(loaded)
    requires var (interval, unit) := ScheduleSettings(loaded);
      var due := if next.Some? then next else CalculateNextBackupTime(setClock, interval, unit);
      && due.Some? && current >= due.value
      && var after := CalculateNextBackupTime(doneClock, interval, unit);
         next' == if !backupOk then Some(current + RetryDelay) else if after.Some? then after else due
    requires config' == Filled(loaded, defaultTempBase)
    ensures PassScheduled(loaded, defaultTempBase, fs, next, current, setClock, doneClock, true, backupOk, config', fs', next')
  {
  }

  /** With a positive interval, the pass that first sets the time runs no
      backup and schedules one interval after the clock it read. */
  lemma FirstPassWaits(loaded: Config, defaultTempBase: string, fs: FileSystem, current: int, setClock: int, doneClock: int,
                       t: Timestamp, cutoff: Timestamp, env: App.BackupEnv, removed: set<string>,
                       fired: bool, backupOk: bool, config': Config, fs': FileSystem, next': Option<int>)
    requires ValidTimestamp(t)
    requires PassTaken(loaded, defaultTempBase, fs, None, current, setClock, doneClock, t, cutoff, env, removed,
                       fired, backupOk, config', fs', next')
    requires IsSchedulerEnabled(loaded) && ScheduleSettings(loaded).0.Int? && ScheduleSettings(loaded).0.i > 0
    requires current <= setClock
    ensures !fired && fs' == fs && config' == loaded
    ensures next' == CalculateNextBackupTime(setClock, ScheduleSettings(loaded).0, ScheduleSettings(loaded).1)
  {
    var (interval, unit) := ScheduleSettings(loaded);
    ServiceFirstPassWaits(interval.i, UnitText(unit), current, setClock, backupOk, doneClock);
  }
}
