/**
 * RedistUpdater: the newer sync. For every file of the managed folder it
 * records the file's hash in the manifest, skips it when the redist folder has
 * no file of that name or one with the same hash, and otherwise copies it over
 * and reports it; then it writes the manifest into the redist folder.
 */
module RedistUpdater {
  import opened Wrappers
  import opened Files
  import opened HashHelper
  import opened SyncSpec

  datatype SyncError =
    | EmptyManagedDirectory(dir: string)   // InvalidOperationException "<dir> is empty"
    | Io(cause: IoError)

  /** What one managed file needs for the loop body to pass it without an exception. */
  ghost predicate FileOk(sha: Sha256, dirs: map<string, Dir>, locked: set<FilePath>, readOnly: set<FilePath>,
                         managedDir: string, redistPath: string, name: string)
    requires managedDir in dirs
  {
    && FilePath(managedDir, name) !in locked
    && (redistPath in dirs && name in dirs[redistPath] ==> FilePath(redistPath, name) !in locked)
    && (redistPath in dirs && NeedsCopy(sha, dirs[managedDir], dirs[redistPath], name) ==> FilePath(redistPath, name) !in readOnly)
  }

  /** Everything UpdateAsync needs to complete without an exception. */
  ghost predicate UpdateSucceeds(sha: Sha256, dirs: map<string, Dir>, locked: set<FilePath>, readOnly: set<FilePath>,
                                 managedDir: string, redistPath: string)
  {
    && managedDir in dirs && dirs[managedDir] != map[] && redistPath in dirs
    && (forall n :: n in dirs[managedDir] ==> FileOk(sha, dirs, locked, readOnly, managedDir, redistPath, n))
    && FilePath(redistPath, ManifestFileName) !in locked
    && FilePath(redistPath, ManifestFileName) !in readOnly
  }

  class RedistUpdater {
    const managedDir: string
    const redistPath: string

    constructor (managedDir: string, redistPath: string)
      ensures this.managedDir == managedDir && this.redistPath == redistPath
    {
      this.managedDir := managedDir;
      this.redistPath := redistPath;
    }

    /**
     * The body of UpdateAsync's loop for one managed file: hash it, skip it when
     * the redist folder has no file of that name or one with the same hash,
     * otherwise copy it over. Returns the file's hash text and whether it was copied.
     */
    method SyncFile(fs: FileSystem, sha: Sha256, name: string) returns (r: Result<(string, bool), SyncError>)
      requires managedDir in fs.dirs && name in fs.dirs[managedDir]
      modifies fs
      ensures fs.locked == old(fs.locked) && fs.readOnly == old(fs.readOnly)
      ensures r.Ok? <==> old(FileOk(sha, fs.dirs, fs.locked, fs.readOnly, managedDir, redistPath, name))
      ensures r.Ok? ==> r.value.0 == ContentHash(sha, old(fs.dirs)[managedDir][name])
      ensures r.Ok? ==> r.value.1 == (redistPath in old(fs.dirs) && NeedsCopy(sha, old(fs.dirs)[managedDir], old(fs.dirs)[redistPath], name))
      ensures r.Ok? && r.value.1 ==>
        fs.dirs == old(fs.dirs)[redistPath := old(fs.dirs)[redistPath][name := old(fs.dirs)[managedDir][name]]]
      ensures !(r.Ok? && r.value.1) ==> fs.dirs == old(fs.dirs)
    {
      var managedFilePath := FilePath(managedDir, name);
      var redistFilePath := FilePath(redistPath, name);
      var managedHash := GetFileHash(fs, sha, managedFilePath);
      if managedHash.Err? {
        return Err(Io(managedHash.error));
      }
      if !fs.FileExists(redistFilePath) {
        return Ok((managedHash.value, false));
      }
      var redistHash := GetFileHash(fs, sha, redistFilePath);
      if redistHash.Err? {
        return Err(Io(redistHash.error));
      }
      if managedHash.value == redistHash.value {
        return Ok((managedHash.value, false));
      }
      var copied := fs.CopyTo(managedFilePath, redistFilePath);
      if copied.Err? {
        return Err(Io(copied.error));
      }
      return Ok((managedHash.value, true));
    }

    /**
     * One turn of the foreach: SyncFile on `name`, then its manifest entry and,
     * when copied, its updated-files entry. `done` names the managed files
     * considered before it.
     */
    method SyncStep(fs: FileSystem, sha: Sha256, managed: Dir, ghost dirs0: map<string, Dir>, ghost done: set<string>,
                    name: string, manifest: map<string, string>, updatedFiles: map<FilePath, FilePath>)
      returns (r: Result<(map<string, string>, map<FilePath, FilePath>), SyncError>)
      requires managedDir in dirs0 && dirs0[managedDir] == managed
      requires done <= managed.Keys && name in managed && name !in done
      requires fs.dirs == SyncDirs(sha, dirs0, managedDir, redistPath, done)
      requires manifest == ManifestOf(sha, managed, done)
      requires updatedFiles == UpdatedPaths(managedDir, redistPath, CopySet(sha, managed, RedistOf(dirs0, redistPath)) * done)
      modifies fs
      ensures fs.locked == old(fs.locked) && fs.readOnly == old(fs.readOnly)
      ensures r.Ok? <==> FileOk(sha, dirs0, old(fs.locked), old(fs.readOnly), managedDir, redistPath, name)
      ensures r.Ok? ==>
        && fs.dirs == SyncDirs(sha, dirs0, managedDir, redistPath, done + {name})
        && r.value.0 == ManifestOf(sha, managed, done + {name})
        && r.value.1 == UpdatedPaths(managedDir, redistPath, CopySet(sha, managed, RedistOf(dirs0, redistPath)) * (done + {name}))
      ensures r.Err? ==> fs.dirs == old(fs.dirs)
    {
      ghost var redist0 := RedistOf(dirs0, redistPath);
      ghost var copiedSoFar := CopySet(sha, managed, redist0) * done;
      SyncDirsFrame(sha, dirs0, managedDir, redistPath, done);
      SyncDirsStep(sha, dirs0, managedDir, redistPath, done, name);
      ManifestOfStep(sha, managed, done, name);
      UpdatedPathsStep(managedDir, redistPath, copiedSoFar, name);
      CopySetStep(sha, managed, redist0, done, name);
      assert redistPath in dirs0 && name in dirs0[redistPath] ==> fs.dirs[redistPath][name] == dirs0[redistPath][name];
      ghost var needsCopy := redistPath in dirs0 && NeedsCopy(sha, managed, redist0, name);
      assert FileOk(sha, fs.dirs, fs.locked, fs.readOnly, managedDir, redistPath, name)
         == FileOk(sha, dirs0, fs.locked, fs.readOnly, managedDir, redistPath, name);
      var step := SyncFile(fs, sha, name);
      if step.Err? {
        return Err(step.error);
      }
      var (hash, copied) := step.value;
      assert copied == needsCopy;
      if copied {
        return Ok((manifest[name := hash], updatedFiles[FilePath(managedDir, name) := FilePath(redistPath, name)]));
      }
      return Ok((manifest[name := hash], updatedFiles));
    }

    /**
     * The foreach over the managed files, in whatever order GetFiles yields
     * them: fills the manifest and the updated-files map. On an exception the
     * files considered so far (`done`) keep what was done to them; each of them
     * passed, and the exception came from a file not among them.
     */
    method SyncFiles(fs: FileSystem, sha: Sha256, managed: Dir)
      returns (r: Result<(map<FilePath, FilePath>, map<string, string>), SyncError>, ghost done: set<string>)
      requires managedDir in fs.dirs && fs.dirs[managedDir] == managed
      modifies fs
      ensures fs.locked == old(fs.locked) && fs.readOnly == old(fs.readOnly)
      ensures done <= managed.Keys
      ensures fs.dirs == SyncDirs(sha, old(fs.dirs), managedDir, redistPath, done)
      ensures r.Ok? <==> forall n :: n in managed ==>
        FileOk(sha, old(fs.dirs), old(fs.locked), old(fs.readOnly), managedDir, redistPath, n)
      ensures forall n :: n in done ==> FileOk(sha, old(fs.dirs), old(fs.locked), old(fs.readOnly), managedDir, redistPath, n)
      ensures r.Err? ==>
        exists n :: n in managed && n !in done && !FileOk(sha, old(fs.dirs), old(fs.locked), old(fs.readOnly), managedDir, redistPath, n)
      ensures r.Ok? ==> done == managed.Keys && r.value.1 == Manifest(sha, managed)
      ensures r.Ok? ==> r.value.0 == UpdatedPaths(managedDir, redistPath, CopySet(sha, managed, RedistOf(old(fs.dirs), redistPath)))
    {
      ghost var dirs0, locked0, readOnly0 := fs.dirs, fs.locked, fs.readOnly;
      ghost var copies := CopySet(sha, managed, RedistOf(dirs0, redistPath));
      var updatedFiles: map<FilePath, FilePath> := map[];
      var manifest: map<string, string> := map[];
      var pending := managed.Keys;
      done := {};
      SyncDirsFrame(sha, dirs0, managedDir, redistPath, {});
      while pending != {}
        invariant pending <= managed.Keys && done == managed.Keys - pending
        invariant fs.locked == locked0 && fs.readOnly == readOnly0
        invariant fs.dirs == SyncDirs(sha, dirs0, managedDir, redistPath, done)
        invariant manifest == ManifestOf(sha, managed, done)
        invariant updatedFiles == UpdatedPaths(managedDir, redistPath, copies * done)
        invariant forall n :: n in done ==> FileOk(sha, dirs0, locked0, readOnly0, managedDir, redistPath, n)
        decreases pending
      {
        var name :| name in pending;
        var step := SyncStep(fs, sha, managed, dirs0, done, name, manifest, updatedFiles);
        if step.Err? {
          r := Err(step.error);
          return;
        }
        manifest, updatedFiles := step.value.0, step.value.1;
        pending, done := pending - {name}, done + {name};
      }
      assert copies * done == copies;
      r := Ok((updatedFiles, manifest));
    }

    /**
     * On success the result is the updated-files map and the redist folder is
     * synced and holds the manifest. On an exception, the files copied before it
     * stay copied (`done` names the managed files considered up to then) and no
     * manifest is written.
     */
    method UpdateAsync(fs: FileSystem, sha: Sha256, serialize: map<string, string> -> string)
      returns (r: Result<map<FilePath, FilePath>, SyncError>, ghost done: set<string>)
      modifies fs
      ensures fs.locked == old(fs.locked) && fs.readOnly == old(fs.readOnly)
      ensures r.Ok? <==> old(UpdateSucceeds(sha, fs.dirs, fs.locked, fs.readOnly, managedDir, redistPath))
      ensures managedDir !in old(fs.dirs) ==> r == Err(Io(DirectoryNotFound(managedDir))) && fs.dirs == old(fs.dirs)
      ensures managedDir in old(fs.dirs) && old(fs.dirs)[managedDir] == map[] ==>
        r == Err(EmptyManagedDirectory(managedDir)) && fs.dirs == old(fs.dirs)
      ensures r.Ok? ==>
        && r.value == UpdatedPaths(managedDir, redistPath, CopySet(sha, old(fs.dirs)[managedDir], old(fs.dirs)[redistPath]))
        && fs.dirs == old(fs.dirs)[redistPath := AfterUpdate(sha, serialize, old(fs.dirs)[managedDir], old(fs.dirs)[redistPath])]
      ensures r.Err? && managedDir in old(fs.dirs) ==>
        done <= old(fs.dirs)[managedDir].Keys && fs.dirs == SyncDirs(sha, old(fs.dirs), managedDir, redistPath, done)
      ensures r.Err? && managedDir in old(fs.dirs) ==>
        forall n :: n in done ==> FileOk(sha, old(fs.dirs), old(fs.locked), old(fs.readOnly), managedDir, redistPath, n)
      ensures r.Err? && managedDir in old(fs.dirs) && old(fs.dirs)[managedDir] != map[] ==>
        || (exists n :: n in old(fs.dirs)[managedDir] && n !in done &&
              !FileOk(sha, old(fs.dirs), old(fs.locked), old(fs.readOnly), managedDir, redistPath, n))
        || (done == old(fs.dirs)[managedDir].Keys && !old(fs.Writable(FilePath(redistPath, ManifestFileName))))
    {
      done := {};
      if managedDir !in fs.dirs {
        r := Err(Io(DirectoryNotFound(managedDir)));
        return;
      }
      var managed := fs.dirs[managedDir];
      if managed == map[] {
        SyncDirsFrame(sha, fs.dirs, managedDir, redistPath, {});
        r := Err(EmptyManagedDirectory(managedDir));
        return;
      }
      ghost var dirs0 := fs.dirs;
      var synced;
      synced, done := SyncFiles(fs, sha, managed);
      if synced.Err? {
        r := Err(synced.error);
        return;
      }
      var (updatedFiles, manifest) := synced.value;
      SyncDirsFrame(sha, dirs0, managedDir, redistPath, done);
      var written := fs.WriteAllText(FilePath(redistPath, ManifestFileName), serialize(manifest));
      if written.Err? {
        r := Err(Io(written.error));
        return;
      }
      SyncDirsThenManifest(sha, serialize, dirs0, managedDir, redistPath);
      r := Ok(updatedFiles);
    }
  }
}
