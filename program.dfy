/**
 * The current entry point: a sequence of early exits checking the arguments and
 * the game and redist folders, then, in this order, the nuspec's version update,
 * the redist sync and the commit file. What the run finds on disk and what the
 * library calls return are fields of an Environment; the changes it makes are
 * the Effect trace it returns.
 */
module Program {
  import opened Wrappers
  import opened Cli
  import opened CommitFile

  /**
   * What a run of Main observes. The three positional arguments are the game
   * folder, the redist folder and the Steam app id; the folder fields say what
   * exists on disk; `appManifestFound` whether GameInfoParser finds
   * steamapps/appmanifest_<appId>.acf; `gameInfoReadable` whether parsing
   * Status.json and the app manifest completes, and gameVersion and buildId
   * what it returns (None for null); `nuspecSaves` whether saving the nuspec
   * succeeds; `sync` is how the redist sync ends; `commitWritable` whether
   * .commit can be written; `utcNow` the clock.
   */
  datatype Environment = Environment(
    platform: Platform,
    args: seq<string>,
    unturnedPathExists: bool,
    redistPathExists: bool,
    nuspecListed: bool,        // Directory.GetFiles(redist, "*.nuspec") found one
    nuspecExists: bool,        // File.Exists on the file found
    appManifestFound: bool,
    headlessData: DataDir,     // <game>/Unturned_Headless_Data
    usualData: DataDir,        // <game>/Unturned_Data
    gameInfoReadable: bool,
    gameVersion: Option<string>,
    buildId: Option<string>,
    nuspec: NuspecDoc,
    nuspecSaves: bool,
    sync: SyncRun,
    commitWritable: bool,
    utcNow: CalendarDate)

  /** NuspecHandler.CreateVersion(version, buildId); its format is not part of this model. */
  type CreateVersion = (string, string) -> string

  /**
   * GetUnturnedDataDirectoryName of this revision: Linux accepts only the
   * headless data folder and Windows only the usual one; otherwise it throws.
   */
  function DataDirectoryName(platform: Platform, headless: DataDir, usual: DataDir): (r: Result<DataDirKind, Crash>)
    ensures r == Ok(Headless) <==> platform == Linux && headless.Present?
    ensures r == Ok(Usual) <==> platform == Windows && usual.Present?
    ensures r.Err? ==> r.error == DataDirectoryNotFound
  {
    if platform == Linux && headless.Present? then Ok(Headless)
    else if platform == Windows && usual.Present? then Ok(Usual)
    else Err(DataDirectoryNotFound)
  }

  /** The data folder's Managed folder exists. */
  predicate ManagedExists(env: Environment, kind: DataDirKind) {
    match kind
    case Headless => env.headlessData.Present? && env.headlessData.managedExists
    case Usual => env.usualData.Present? && env.usualData.managedExists
  }

  /*
   * The stages of Main, each one the previous plus the checks between them, in
   * the order Main makes them.
   */

  /** The platform is supported and the three positional arguments are there. */
  predicate ArgumentsGiven(env: Environment) {
    env.platform != OtherPlatform && |env.args| >= 3
  }

  /** The app id is not blank, and the game folder, the redist folder and its nuspec exist. */
  predicate InputsFound(env: Environment) {
    && ArgumentsGiven(env)
    && !IsBlank(env.args[2])
    && env.unturnedPathExists && env.redistPathExists && env.nuspecListed && env.nuspecExists
  }

  /** The app manifest, the data folder and its Managed folder are found. */
  predicate ManagedFound(env: Environment) {
    && InputsFound(env)
    && env.appManifestFound
    && DataDirectoryName(env.platform, env.headlessData, env.usualData).Ok?
    && ManagedExists(env, DataDirectoryName(env.platform, env.headlessData, env.usualData).value)
  }

  /** The game version and build id are read and neither is blank. */
  predicate GameInfoFound(env: Environment) {
    && ManagedFound(env)
    && env.gameInfoReadable
    && !IsNullOrWhiteSpace(env.gameVersion) && !IsNullOrWhiteSpace(env.buildId)
  }

  /** Every check before the version comparison passes: the nuspec has a version that is not blank. */
  predicate ReachesVersionCheck(env: Environment) {
    GameInfoFound(env) && env.nuspec.VersionElement? && !IsBlank(env.nuspec.value)
  }

  /** The version the nuspec is to receive: game version and build id composed. */
  function NewVersion(env: Environment, createVersion: CreateVersion): string
    requires ReachesVersionCheck(env)
  {
    createVersion(env.gameVersion.value, env.buildId.value)
  }

  /** A new game version was detected, so the run goes on to change things. */
  predicate ReachesSave(env: Environment, createVersion: CreateVersion) {
    ReachesVersionCheck(env) && NewVersion(env, createVersion) != env.nuspec.value
  }

  /** The full trace of a run that gets to the end. */
  function PlannedEffects(env: Environment, createVersion: CreateVersion): seq<Effect>
    requires ReachesSave(env, createVersion)
  {
    [SaveNuspec(NewVersion(env, createVersion)), SyncRedist,
     WriteCommit(CommitLine(env.utcNow, env.gameVersion.value, env.buildId.value, HasForceFlag(env.args)))]
  }

  /** Main. */
  method Run(env: Environment, createVersion: CreateVersion) returns (outcome: Outcome, effects: seq<Effect>)
    ensures outcome.Exit? ==> outcome.code == 0 || outcome.code == 1
    ensures env.platform == OtherPlatform ==> outcome == Threw(PlatformNotSupported) && effects == []
    ensures env.platform != OtherPlatform && |env.args| < 3 ==> outcome == Exit(1) && effects == []
    ensures (&& ArgumentsGiven(env)
             && (IsBlank(env.args[2]) || !env.unturnedPathExists || !env.redistPathExists
                 || !env.nuspecListed || !env.nuspecExists))
      ==> outcome == Exit(1) && effects == []
    ensures InputsFound(env) && !env.appManifestFound ==> outcome == Threw(AppManifestNotFound) && effects == []
    ensures InputsFound(env) && env.appManifestFound && DataDirectoryName(env.platform, env.headlessData, env.usualData).Err? ==>
      outcome == Threw(DataDirectoryNotFound) && effects == []
    ensures (&& InputsFound(env) && env.appManifestFound
             && DataDirectoryName(env.platform, env.headlessData, env.usualData).Ok?
             && !ManagedExists(env, DataDirectoryName(env.platform, env.headlessData, env.usualData).value))
      ==> outcome == Exit(1) && effects == []
    ensures ManagedFound(env) && !env.gameInfoReadable ==> outcome == Threw(GameInfoUnreadable) && effects == []
    ensures ManagedFound(env) && env.gameInfoReadable && (IsNullOrWhiteSpace(env.gameVersion) || IsNullOrWhiteSpace(env.buildId)) ==>
      outcome == Exit(1) && effects == []
    ensures GameInfoFound(env) && env.nuspec.Unloadable? ==> outcome == Threw(NuspecUnreadable) && effects == []
    ensures GameInfoFound(env) && env.nuspec.NoMetadata? ==> outcome == Threw(NuspecMetadataMissing) && effects == []
    ensures GameInfoFound(env) && (env.nuspec.NoVersionElement? || (env.nuspec.VersionElement? && IsBlank(env.nuspec.value))) ==>
      outcome == Exit(1) && effects == []
    ensures ReachesVersionCheck(env) && NewVersion(env, createVersion) == env.nuspec.value ==>
      outcome == Exit(1) && effects == []
    ensures !ReachesSave(env, createVersion) ==> effects == [] && outcome != Exit(0)
    ensures ReachesSave(env, createVersion) && !env.nuspecSaves ==> outcome == Threw(NuspecSaveFailed) && effects == []
    ensures ReachesSave(env, createVersion) && env.nuspecSaves ==>
      && effects <= PlannedEffects(env, createVersion) && 2 <= |effects|
      && (env.sync.SyncThrew? ==> outcome == Threw(SyncFailed) && |effects| == 2)
      && (env.sync == SyncDone(0) ==> outcome == Exit(1) && |effects| == 2)
      && (env.sync.SyncDone? && env.sync.updatedCount > 0 && !env.commitWritable ==>
            outcome == Threw(CommitWriteFailed) && |effects| == 2)
    ensures outcome == Exit(0) <==>
      && ReachesSave(env, createVersion) && env.nuspecSaves
      && env.sync.SyncDone? && env.sync.updatedCount > 0 && env.commitWritable
    ensures outcome == Exit(0) ==> effects == PlannedEffects(env, createVersion)
  {
    effects := [];
    if env.platform == OtherPlatform {
      return Threw(PlatformNotSupported), effects;
    }
    if |env.args| < 3 {
      return Exit(1), effects;
    }
    var appId := env.args[2];
    var force := HasForceFlag(env.args);
    if IsBlank(appId) {
      return Exit(1), effects;
    }
    if !env.unturnedPathExists || !env.redistPathExists {
      return Exit(1), effects;
    }
    if !env.nuspecListed || !env.nuspecExists {
      return Exit(1), effects;
    }
    if !env.appManifestFound {
      return Threw(AppManifestNotFound), effects;
    }
    var dataDir := DataDirectoryName(env.platform, env.headlessData, env.usualData);
    if dataDir.Err? {
      return Threw(dataDir.error), effects;
    }
    if !ManagedExists(env, dataDir.value) {
      return Exit(1), effects;
    }
    if !env.gameInfoReadable {
      return Threw(GameInfoUnreadable), effects;
    }
    if IsNullOrWhiteSpace(env.gameVersion) || IsNullOrWhiteSpace(env.buildId) {
      return Exit(1), effects;
    }
    var newVersion := env.gameVersion.value;
    var buildId := env.buildId.value;
    if env.nuspec.Unloadable? {
      return Threw(NuspecUnreadable), effects;
    }
    if env.nuspec.NoMetadata? {
      return Threw(NuspecMetadataMissing), effects;
    }
    if env.nuspec.NoVersionElement? || IsBlank(env.nuspec.value) {
      return Exit(1), effects;
    }
    var currentNuspecVersion := env.nuspec.value;
    var newVersionWithBuildId := createVersion(newVersion, buildId);
    if newVersionWithBuildId == currentNuspecVersion {
      return Exit(1), effects;
    }
    if !env.nuspecSaves {
      return Threw(NuspecSaveFailed), effects;
    }
    effects := effects + [SaveNuspec(newVersionWithBuildId)];
    effects := effects + [SyncRedist];
    if env.sync.SyncThrew? {
      return Threw(SyncFailed), effects;
    }
    if env.sync.updatedCount == 0 {
      return Exit(1), effects;
    }
    if !env.commitWritable {
      return Threw(CommitWriteFailed), effects;
    }
    effects := effects + [WriteCommit(CommitLine(env.utcNow, newVersion, buildId, force))];
    return Exit(0), effects;
  }
}
