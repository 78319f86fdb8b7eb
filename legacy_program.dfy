/**
 * The first revision of the tool, a single Program class: its hash helper
 * (BitConverter text without dashes, lowered), its redist sync UpdateRedist
 * (which looks for the redist counterpart before reading anything and writes no
 * manifest), its data-folder lookup, and Main, which stores the app id and the
 * force flag in static properties.
 */
module LegacyProgram {
  import opened Wrappers
  import opened Hex
  import opened Files
  import opened HashHelper
  import opened SyncSpec
  import opened Cli
  import opened CommitFile
  import RedistUpdater
  import Program

  /** HashHelper.GetHashFromArray: BitConverter.ToString of the digest, dashes removed, lowered. */
  function GetHashFromArray(sha: Sha256, data: seq<byte>): (h: string)
    ensures h == ContentHash(sha, data)
  {
    UndashedIsUpperHex(sha(data));
    LoweredUpperHex(sha(data));
    ToLowerInvariant(Without(DashedUpperHex(sha(data)), '-'))
  }

  /** HashHelper.IsSameHashes: the two hash texts are equal exactly when the two digests are. */
  function IsSameHashes(sha: Sha256, managedFileData: seq<byte>, redistFileData: seq<byte>): (same: bool)
    ensures same <==> sha(managedFileData) == sha(redistFileData)
  {
    ContentHashInjective(sha, managedFileData, redistFileData);
    GetHashFromArray(sha, managedFileData) == GetHashFromArray(sha, redistFileData)
  }

  /**
   * What one managed file needs for UpdateRedist's loop body to pass it: nothing
   * when it has no redist counterpart (it is never opened); otherwise both files
   * must open, and the counterpart must be writable when the contents differ.
   */
  ghost predicate LegacyFileOk(sha: Sha256, dirs: map<string, Dir>, locked: set<FilePath>, readOnly: set<FilePath>,
                               managedDir: string, redistPath: string, name: string)
    requires managedDir in dirs
  {
    redistPath in dirs && name in dirs[redistPath] ==>
      && FilePath(managedDir, name) !in locked
      && FilePath(redistPath, name) !in locked
      && (NeedsCopy(sha, dirs[managedDir], dirs[redistPath], name) ==> FilePath(redistPath, name) !in readOnly)
  }

  /** Everything UpdateRedist needs to complete without an exception. */
  ghost predicate LegacyUpdateSucceeds(sha: Sha256, dirs: map<string, Dir>, locked: set<FilePath>, readOnly: set<FilePath>,
                                       managedDir: string, redistPath: string)
  {
    && managedDir in dirs && dirs[managedDir] != map[]
    && (forall n :: n in dirs[managedDir] ==> LegacyFileOk(sha, dirs, locked, readOnly, managedDir, redistPath, n))
  }

  /**
   * The current sync asks more of the file system than the first one did: it
   * hashes every managed file, needs the redist folder and writes the manifest.
   * Whatever it completes, the first revision completes too.
   */
  lemma CurrentSucceedsThenLegacySucceeds(sha: Sha256, dirs: map<string, Dir>, locked: set<FilePath>, readOnly: set<FilePath>,
                                          managedDir: string, redistPath: string)
    requires RedistUpdater.UpdateSucceeds(sha, dirs, locked, readOnly, managedDir, redistPath)
    ensures LegacyUpdateSucceeds(sha, dirs, locked, readOnly, managedDir, redistPath)
  {
    forall n | n in dirs[managedDir]
      ensures LegacyFileOk(sha, dirs, locked, readOnly, managedDir, redistPath, n)
    {
      assert RedistUpdater.FileOk(sha, dirs, locked, readOnly, managedDir, redistPath, n);
    }
  }

  /** The converse fails: a locked managed file with no redist counterpart stops only the current sync. */
  lemma LegacyToleratesLockedUnmatchedFile(sha: Sha256)
    ensures var dirs := map["managed" := map["A.dll" := [1]], "redist" := map[]];
            var locked := {FilePath("managed", "A.dll")};
            && LegacyUpdateSucceeds(sha, dirs, locked, {}, "managed", "redist")
            && !RedistUpdater.UpdateSucceeds(sha, dirs, locked, {}, "managed", "redist")
  {
    var dirs: map<string, Dir> := map["managed" := map["A.dll" := [1]], "redist" := map[]];
    var locked := {FilePath("managed", "A.dll")};
    assert !RedistUpdater.FileOk(sha, dirs, locked, {}, "managed", "redist", "A.dll");
    assert "A.dll" !in dirs["redist"];
    assert forall n :: n in dirs["managed"] ==> n == "A.dll";
  }

  /**
   * The loop body of UpdateRedist for one managed file: skip it when the redist
   * folder has no file of that name, read both, skip it when the hashes agree,
   * otherwise copy it over. Returns whether it was copied; on an exception the
   * loop rethrows.
   */
  method UpdateFile(fs: FileSystem, sha: Sha256, managedDir: string, redistPath: string, name: string)
    returns (r: Result<bool, RedistUpdater.SyncError>)
    requires managedDir in fs.dirs && name in fs.dirs[managedDir]
    modifies fs
    ensures fs.locked == old(fs.locked) && fs.readOnly == old(fs.readOnly)
    ensures r.Ok? <==> old(LegacyFileOk(sha, fs.dirs, fs.locked, fs.readOnly, managedDir, redistPath, name))
    ensures r.Ok? ==> r.value == (redistPath in old(fs.dirs) && NeedsCopy(sha, old(fs.dirs)[managedDir], old(fs.dirs)[redistPath], name))
    ensures r.Ok? && r.value ==>
      fs.dirs == old(fs.dirs)[redistPath := old(fs.dirs)[redistPath][name := old(fs.dirs)[managedDir][name]]]
    ensures !(r.Ok? && r.value) ==> fs.dirs == old(fs.dirs)
  {
    var managedFilePath := FilePath(managedDir, name);
    var redistFilePath := FilePath(redistPath, name);
    if !fs.FileExists(redistFilePath) {
      return Ok(false);
    }
    var managedFileData := fs.ReadAllBytes(managedFilePath);
    if managedFileData.Err? {
      return Err(RedistUpdater.Io(managedFileData.error));
    }
    var redistFileData := fs.ReadAllBytes(redistFilePath);
    if redistFileData.Err? {
      return Err(RedistUpdater.Io(redistFileData.error));
    }
    ContentHashInjective(sha, managedFileData.value, redistFileData.value);
    if IsSameHashes(sha, managedFileData.value, redistFileData.value) {
      return Ok(false);
    }
    var copied := fs.CopyTo(managedFilePath, redistFilePath);
    if copied.Err? {
      return Err(RedistUpdater.Io(copied.error));
    }
    return Ok(true);
  }

  /**
   * UpdateRedist: the same copy decision as the current sync, reported the same
   * way, without a manifest. A missing redist folder makes every counterpart
   * missing, so nothing is copied. On an exception the files considered so far
   * (`done`) keep what was done to them.
   */
  method UpdateRedist(fs: FileSystem, sha: Sha256, managedDir: string, redistPath: string)
    returns (r: Result<map<FilePath, FilePath>, RedistUpdater.SyncError>, ghost done: set<string>)
    modifies fs
    ensures fs.locked == old(fs.locked) && fs.readOnly == old(fs.readOnly)
    ensures r.Ok? <==> old(LegacyUpdateSucceeds(sha, fs.dirs, fs.locked, fs.readOnly, managedDir, redistPath))
    ensures managedDir !in old(fs.dirs) ==> r == Err(RedistUpdater.Io(DirectoryNotFound(managedDir))) && fs.dirs == old(fs.dirs)
    ensures managedDir in old(fs.dirs) && old(fs.dirs)[managedDir] == map[] ==>
      r == Err(RedistUpdater.EmptyManagedDirectory(managedDir)) && fs.dirs == old(fs.dirs)
    ensures managedDir in old(fs.dirs) ==>
      done <= old(fs.dirs)[managedDir].Keys && fs.dirs == SyncDirs(sha, old(fs.dirs), managedDir, redistPath, done)
    ensures r.Ok? ==>
      && done == old(fs.dirs)[managedDir].Keys
      && r.value == UpdatedPaths(managedDir, redistPath, CopySet(sha, old(fs.dirs)[managedDir], RedistOf(old(fs.dirs), redistPath)))
    ensures managedDir in old(fs.dirs) ==>
      forall n :: n in done ==> LegacyFileOk(sha, old(fs.dirs), old(fs.locked), old(fs.readOnly), managedDir, redistPath, n)
    ensures r.Err? && managedDir in old(fs.dirs) && old(fs.dirs)[managedDir] != map[] ==>
      exists n :: n in old(fs.dirs)[managedDir] && n !in done &&
        !LegacyFileOk(sha, old(fs.dirs), old(fs.locked), old(fs.readOnly), managedDir, redistPath, n)
  {
    done := {};
    if managedDir !in fs.dirs {
      r := Err(RedistUpdater.Io(DirectoryNotFound(managedDir)));
      return;
    }
    var managed := fs.dirs[managedDir];
    SyncDirsFrame(sha, fs.dirs, managedDir, redistPath, {});
    if managed == map[] {
      r := Err(RedistUpdater.EmptyManagedDirectory(managedDir));
      return;
    }
    ghost var dirs0 := fs.dirs;
    ghost var redist0 := RedistOf(dirs0, redistPath);
    ghost var copiedSoFar: set<string> := {};
    var updatedFiles: map<FilePath, FilePath> := map[];
    var pending := managed.Keys;
    while pending != {}
      invariant pending <= managed.Keys && done == managed.Keys - pending
      invariant fs.locked == old(fs.locked) && fs.readOnly == old(fs.readOnly)
      invariant fs.dirs == SyncDirs(sha, dirs0, managedDir, redistPath, done)
      invariant copiedSoFar == CopySet(sha, managed, redist0) * done
      invariant updatedFiles == UpdatedPaths(managedDir, redistPath, copiedSoFar)
      invariant forall n :: n in done ==> LegacyFileOk(sha, dirs0, fs.locked, fs.readOnly, managedDir, redistPath, n)
      decreases pending
    {
      var name :| name in pending;
      SyncDirsFrame(sha, dirs0, managedDir, redistPath, done);
      SyncDirsStep(sha, dirs0, managedDir, redistPath, done, name);
      UpdatedPathsStep(managedDir, redistPath, copiedSoFar, name);
      CopySetStep(sha, managed, redist0, done, name);
      assert redistPath in dirs0 && name in dirs0[redistPath] ==> fs.dirs[redistPath][name] == dirs0[redistPath][name];
      ghost var needsCopy := redistPath in dirs0 && NeedsCopy(sha, managed, redist0, name);
      assert LegacyFileOk(sha, fs.dirs, fs.locked, fs.readOnly, managedDir, redistPath, name)
         == LegacyFileOk(sha, dirs0, fs.locked, fs.readOnly, managedDir, redistPath, name);
      var copied := UpdateFile(fs, sha, managedDir, redistPath, name);
      if copied.Err? {
        assert name in managed && name !in done && !LegacyFileOk(sha, dirs0, fs.locked, fs.readOnly, managedDir, redistPath, name);
        r := Err(copied.error);
        return;
      }
      assert copied.value == needsCopy;
      if copied.value {
        updatedFiles := updatedFiles[FilePath(managedDir, name) := FilePath(redistPath, name)];
        copiedSoFar := copiedSoFar + {name};
      }
      pending, done := pending - {name}, done + {name};
    }
    assert CopySet(sha, managed, redist0) * done == CopySet(sha, managed, redist0);
    r := Ok(updatedFiles);
  }

  /** GetUnturnedDataDirectoryName of this revision: the headless data folder if present, else the usual one, else it throws. */
  function DataDirectoryName(headless: DataDir, usual: DataDir): (r: Result<DataDirKind, Crash>)
    ensures r == Ok(Headless) <==> headless.Present?
    ensures r == Ok(Usual) <==> headless.Absent? && usual.Present?
    ensures r.Err? ==> r.error == DataDirectoryNotFound
  {
    if headless.Present? then Ok(Headless)
    else if usual.Present? then Ok(Usual)
    else Err(DataDirectoryNotFound)
  }

  /**
   * How the lookup changed between the revisions: on Linux the current one
   * picks what the first picked or throws where the first fell back to the usual
   * folder; on Windows it always takes the usual folder, even beside a headless one.
   */
  lemma DataDirectoryRevisions(platform: Platform, headless: DataDir, usual: DataDir)
    ensures platform == Linux ==>
      (Program.DataDirectoryName(platform, headless, usual).Ok? ==>
        Program.DataDirectoryName(platform, headless, usual) == DataDirectoryName(headless, usual))
    ensures platform == Linux && headless.Absent? && usual.Present? ==>
      DataDirectoryName(headless, usual) == Ok(Usual) && Program.DataDirectoryName(platform, headless, usual).Err?
    ensures platform == Windows && headless.Present? && usual.Present? ==>
      DataDirectoryName(headless, usual) == Ok(Headless) && Program.DataDirectoryName(platform, headless, usual) == Ok(Usual)
    ensures platform == OtherPlatform ==> Program.DataDirectoryName(platform, headless, usual).Err?
  {
  }

  /**
   * What a run of the first Main observes: as for the current one, plus the
   * steamapps folder and Status.json; `gameInfo` is what GetInfo returns
   * (version and build id), None when it throws; `nuspecSaves` whether
   * `doc.Save` succeeds.
   */
  datatype LegacyEnvironment = LegacyEnvironment(
    platform: Platform,
    args: seq<string>,
    unturnedPathExists: bool,
    redistPathExists: bool,
    nuspecListed: bool,
    nuspecExists: bool,
    steamappsExists: bool,
    headlessData: DataDir,
    usualData: DataDir,
    statusFileExists: bool,
    gameInfo: Option<(string, string)>,
    nuspec: NuspecDoc,
    nuspecSaves: bool,
    sync: SyncRun,
    commitWritable: bool,
    utcNow: CalendarDate)

  predicate ManagedExists(env: LegacyEnvironment, kind: DataDirKind) {
    match kind
    case Headless => env.headlessData.Present? && env.headlessData.managedExists
    case Usual => env.usualData.Present? && env.usualData.managedExists
  }

  /*
   * The stages of the first Main, each one the previous plus the checks between
   * them, in the order Main makes them.
   */

  /** The platform is supported and the three positional arguments are there. */
  predicate ArgumentsGiven(env: LegacyEnvironment) {
    env.platform != OtherPlatform && |env.args| >= 3
  }

  /** The app id is not blank, and the game folder, the redist folder, its nuspec and steamapps exist. */
  predicate InputsFound(env: LegacyEnvironment) {
    && ArgumentsGiven(env)
    && !IsBlank(env.args[2])
    && env.unturnedPathExists && env.redistPathExists && env.nuspecListed && env.nuspecExists
    && env.steamappsExists
  }

  /** The data folder and its Managed folder are found. */
  predicate ManagedFound(env: LegacyEnvironment) {
    && InputsFound(env)
    && DataDirectoryName(env.headlessData, env.usualData).Ok?
    && ManagedExists(env, DataDirectoryName(env.headlessData, env.usualData).value)
  }

  /** Status.json exists and GetInfo returns. */
  predicate GameInfoFound(env: LegacyEnvironment) {
    ManagedFound(env) && env.statusFileExists && env.gameInfo.Some?
  }

  /** Every check before the version comparison passes: the nuspec has a version element. */
  predicate ReachesVersionCheck(env: LegacyEnvironment) {
    GameInfoFound(env) && env.nuspec.VersionElement?
  }

  /** The game version differs from the nuspec's (the build id plays no part here). */
  predicate ReachesSave(env: LegacyEnvironment) {
    ReachesVersionCheck(env) && env.gameInfo.value.0 != env.nuspec.value
  }

  /** The full trace of a run that gets to the end: the nuspec receives the bare game version. */
  function PlannedEffects(env: LegacyEnvironment): seq<Effect>
    requires ReachesSave(env)
  {
    [SaveNuspec(env.gameInfo.value.0), SyncRedist,
     WriteCommit(CommitLine(env.utcNow, env.gameInfo.value.0, env.gameInfo.value.1, HasForceFlag(env.args)))]
  }

  /** The first Program class: Main keeps the app id and the force flag in static properties. */
  class LegacyProgram {
    var appId: Option<string>
    var force: bool

    constructor ()
      ensures appId == None && !force
    {
      appId := None;
      force := false;
    }

    /** Main. */
    method Run(env: LegacyEnvironment) returns (outcome: Outcome, effects: seq<Effect>)
      modifies this
      ensures ArgumentsGiven(env) ==> appId == Some(env.args[2]) && force == HasForceFlag(env.args)
      ensures !ArgumentsGiven(env) ==> appId == old(appId) && force == old(force)
      ensures outcome.Exit? ==> outcome.code == 0 || outcome.code == 1
      ensures env.platform == OtherPlatform ==> outcome == Threw(PlatformNotSupported) && effects == []
      ensures env.platform != OtherPlatform && |env.args| < 3 ==> outcome == Exit(1) && effects == []
      ensures (&& ArgumentsGiven(env)
               && (IsBlank(env.args[2]) || !env.unturnedPathExists || !env.redistPathExists
                   || !env.nuspecListed || !env.nuspecExists || !env.steamappsExists))
        ==> outcome == Exit(1) && effects == []
      ensures InputsFound(env) && DataDirectoryName(env.headlessData, env.usualData).Err? ==>
        outcome == Threw(DataDirectoryNotFound) && effects == []
      ensures (&& InputsFound(env) && DataDirectoryName(env.headlessData, env.usualData).Ok?
               && !ManagedExists(env, DataDirectoryName(env.headlessData, env.usualData).value))
        ==> outcome == Exit(1) && effects == []
      ensures ManagedFound(env) && !env.statusFileExists ==> outcome == Threw(StatusFileNotFound) && effects == []
      ensures ManagedFound(env) && env.statusFileExists && env.gameInfo.None? ==>
        outcome == Threw(GameInfoUnreadable) && effects == []
      ensures GameInfoFound(env) && env.nuspec.Unloadable? ==> outcome == Threw(NuspecUnreadable) && effects == []
      ensures GameInfoFound(env) && env.nuspec.NoMetadata? ==> outcome == Threw(NuspecMetadataMissing) && effects == []
      ensures GameInfoFound(env) && env.nuspec.NoVersionElement? ==> outcome == Exit(1) && effects == []
      ensures ReachesVersionCheck(env) && env.gameInfo.value.0 == env.nuspec.value ==> outcome == Exit(1) && effects == []
      ensures !ReachesSave(env) ==> effects == [] && outcome != Exit(0)
      ensures ReachesSave(env) && !env.nuspecSaves ==> outcome == Threw(NuspecSaveFailed) && effects == []
      ensures ReachesSave(env) && env.nuspecSaves ==>
        && effects <= PlannedEffects(env) && 2 <= |effects|
        && (env.sync.SyncThrew? ==> outcome == Threw(SyncFailed) && |effects| == 2)
        && (env.sync == SyncDone(0) ==> outcome == Exit(1) && |effects| == 2)
        && (env.sync.SyncDone? && env.sync.updatedCount > 0 && !env.commitWritable ==>
              outcome == Threw(CommitWriteFailed) && |effects| == 2)
      ensures outcome == Exit(0) <==>
        && ReachesSave(env) && env.nuspecSaves
        && env.sync.SyncDone? && env.sync.updatedCount > 0 && env.commitWritable
      ensures outcome == Exit(0) ==> effects == PlannedEffects(env)
    {
      effects := [];
      if env.platform == OtherPlatform {
        return Threw(PlatformNotSupported), effects;
      }
      if |env.args| < 3 {
        return Exit(1), effects;
      }
      appId := Some(env.args[2]);
      force := HasForceFlag(env.args);
      if IsBlank(env.args[2]) {
        return Exit(1), effects;
      }
      if !env.unturnedPathExists || !env.redistPathExists {
        return Exit(1), effects;
      }
      if !env.nuspecListed || !env.nuspecExists {
        return Exit(1), effects;
      }
      if !env.steamappsExists {
        return Exit(1), effects;
      }
      var dataDir := DataDirectoryName(env.headlessData, env.usualData);
      if dataDir.Err? {
        return Threw(dataDir.error), effects;
      }
      if !ManagedExists(env, dataDir.value) {
        return Exit(1), effects;
      }
      if !env.statusFileExists {
        return Threw(StatusFileNotFound), effects;
      }
      if env.gameInfo.None? {
        return Threw(GameInfoUnreadable), effects;
      }
      var (version, buildId) := env.gameInfo.value;
      if env.nuspec.Unloadable? {
        return Threw(NuspecUnreadable), effects;
      }
      if env.nuspec.NoMetadata? {
        return Threw(NuspecMetadataMissing), effects;
      }
      if env.nuspec.NoVersionElement? {
        return Exit(1), effects;
      }
      if version == env.nuspec.value {
        return Exit(1), effects;
      }
      if !env.nuspecSaves {
        return Threw(NuspecSaveFailed), effects;
      }
      effects := effects + [SaveNuspec(version)];
      effects := effects + [SyncRedist];
      if env.sync.SyncThrew? {
        return Threw(SyncFailed), effects;
      }
      if env.sync.updatedCount == 0 {
        return Exit(1), effects;
      }
      if !env.commitWritable {
        return Threw(CommitWriteFailed), effects;
      }
      effects := effects + [WriteCommit(CommitLine(env.utcNow, version, buildId, force))];
      return Exit(0), effects;
    }
  }
}
