/**
 * What a redist sync means, independent of the loop that performs it: which
 * files are overwritten, what the redist folder holds afterwards, which
 * (managed path -> redist path) pairs are reported, and the name -> hash manifest.
 * Both revisions of the sync (RedistUpdater.UpdateAsync and the older
 * UpdateRedist) are proved against these definitions.
 */
module SyncSpec {
  import opened Files
  import opened HashHelper

  const ManifestFileName: string := "manifest.sha256.json"

  /** A managed file is copied exactly when a same-named redist file exists and the hash texts differ. */
  predicate NeedsCopy(sha: Sha256, managed: Dir, redist: Dir, name: string) {
    name in managed && name in redist && ContentHash(sha, managed[name]) != ContentHash(sha, redist[name])
  }

  function CopySet(sha: Sha256, managed: Dir, redist: Dir): set<string> {
    set n | n in managed && NeedsCopy(sha, managed, redist, n)
  }

  /** The redist folder once the managed files named in `done` have been considered. */
  function Synced(sha: Sha256, managed: Dir, redist: Dir, done: set<string>): Dir {
    map n | n in redist :: if n in done && NeedsCopy(sha, managed, redist, n) then managed[n] else redist[n]
  }

  /** The manifest: every managed file name, valued with that file's hash text. */
  function Manifest(sha: Sha256, managed: Dir): map<string, string> {
    ManifestOf(sha, managed, managed.Keys)
  }

  /** The manifest entries of the managed files named in `names`. */
  function ManifestOf(sha: Sha256, managed: Dir, names: set<string>): map<string, string> {
    map n | n in names && n in managed :: ContentHash(sha, managed[n])
  }

  /** The updated-files map: managed path -> redist path of the same file name. */
  function UpdatedPaths(managedDir: string, redistPath: string, names: set<string>): (u: map<FilePath, FilePath>)
    ensures forall p :: p in u <==> p.dir == managedDir && p.name in names
    ensures forall p :: p in u ==> u[p] == FilePath(redistPath, p.name)
  {
    map n | n in names :: FilePath(managedDir, n) := FilePath(redistPath, n)
  }

  /** The redist folder after a successful UpdateAsync: synced, then the manifest file written. */
  function AfterUpdate(sha: Sha256, serialize: map<string, string> -> string, managed: Dir, redist: Dir): Dir {
    Synced(sha, managed, redist, managed.Keys)[ManifestFileName := Utf8(serialize(Manifest(sha, managed)))]
  }

  /** The redist folder's files; none when the folder does not exist. */
  function RedistOf(dirs: map<string, Dir>, redistPath: string): Dir {
    if redistPath in dirs then dirs[redistPath] else map[]
  }

  /** The whole file system once the files in `done` have been considered. */
  function SyncDirs(sha: Sha256, dirs: map<string, Dir>, managedDir: string, redistPath: string, done: set<string>): map<string, Dir>
    requires managedDir in dirs
  {
    if redistPath in dirs then dirs[redistPath := Synced(sha, dirs[managedDir], dirs[redistPath], done)]
    else dirs
  }

  /**
   * A partial sync writes only into the redist folder, never into the managed
   * one (even when the two are the same folder), creates no file, and leaves the
   * files not yet considered as they were.
   */
  lemma SyncDirsFrame(sha: Sha256, dirs: map<string, Dir>, managedDir: string, redistPath: string, done: set<string>)
    requires managedDir in dirs
    ensures SyncDirs(sha, dirs, managedDir, redistPath, done).Keys == dirs.Keys
    ensures done == {} ==> SyncDirs(sha, dirs, managedDir, redistPath, done) == dirs
    ensures SyncDirs(sha, dirs, managedDir, redistPath, done)[managedDir] == dirs[managedDir]
    ensures forall d :: d in dirs && d != redistPath ==> SyncDirs(sha, dirs, managedDir, redistPath, done)[d] == dirs[d]
    ensures redistPath in dirs ==> SyncDirs(sha, dirs, managedDir, redistPath, done)[redistPath].Keys == dirs[redistPath].Keys
    ensures redistPath in dirs ==> forall n :: n in dirs[redistPath] && n !in done ==>
      SyncDirs(sha, dirs, managedDir, redistPath, done)[redistPath][n] == dirs[redistPath][n]
  {
    if redistPath in dirs && (redistPath == managedDir || done == {}) {
      assert Synced(sha, dirs[managedDir], dirs[redistPath], done) == dirs[redistPath];
    }
  }

  lemma SyncedAgrees(sha: Sha256, managed: Dir, redist: Dir, done: set<string>, name: string)
    requires name !in done
    ensures Synced(sha, managed, redist, done + {name}).Keys == Synced(sha, managed, redist, done).Keys
    ensures forall n | n in redist && n != name ::
      Synced(sha, managed, redist, done + {name})[n] == Synced(sha, managed, redist, done)[n]
    ensures name in redist ==> Synced(sha, managed, redist, done)[name] == redist[name]
    ensures name in redist ==>
      Synced(sha, managed, redist, done + {name})[name]
      == if NeedsCopy(sha, managed, redist, name) then managed[name] else redist[name]
  {
  }

  lemma MapExtensional(a: Dir, b: Dir, name: string)
    requires a.Keys == b.Keys
    requires forall n | n in a && n != name :: a[n] == b[n]
    ensures name in a ==> a == b[name := a[name]]
  {
  }

  /** A completed sync followed by the manifest write leaves the redist folder as AfterUpdate says. */
  lemma SyncDirsThenManifest(sha: Sha256, serialize: map<string, string> -> string, dirs: map<string, Dir>,
                             managedDir: string, redistPath: string)
    requires managedDir in dirs && redistPath in dirs
    ensures var synced := SyncDirs(sha, dirs, managedDir, redistPath, dirs[managedDir].Keys);
            synced[redistPath := synced[redistPath][ManifestFileName := Utf8(serialize(Manifest(sha, dirs[managedDir])))]]
            == dirs[redistPath := AfterUpdate(sha, serialize, dirs[managedDir], dirs[redistPath])]
  {
  }

  lemma ManifestOfStep(sha: Sha256, managed: Dir, names: set<string>, name: string)
    requires name in managed
    ensures ManifestOf(sha, managed, names + {name}) == ManifestOf(sha, managed, names)[name := ContentHash(sha, managed[name])]
  {
  }

  lemma UpdatedPathsStep(managedDir: string, redistPath: string, names: set<string>, name: string)
    ensures UpdatedPaths(managedDir, redistPath, names + {name})
         == UpdatedPaths(managedDir, redistPath, names)[FilePath(managedDir, name) := FilePath(redistPath, name)]
  {
  }

  lemma CopySetStep(sha: Sha256, managed: Dir, redist: Dir, done: set<string>, name: string)
    ensures CopySet(sha, managed, redist) * (done + {name})
         == if NeedsCopy(sha, managed, redist, name) then CopySet(sha, managed, redist) * done + {name}
            else CopySet(sha, managed, redist) * done
  {
  }

  /** Considering one more managed file copies it exactly when NeedsCopy says so. */
  lemma SyncedStep(sha: Sha256, managed: Dir, redist: Dir, done: set<string>, name: string)
    requires name !in done
    ensures NeedsCopy(sha, managed, redist, name) ==>
      Synced(sha, managed, redist, done + {name}) == Synced(sha, managed, redist, done)[name := managed[name]]
    ensures !NeedsCopy(sha, managed, redist, name) ==>
      Synced(sha, managed, redist, done + {name}) == Synced(sha, managed, redist, done)
  {
    SyncedAgrees(sha, managed, redist, done, name);
    MapExtensional(Synced(sha, managed, redist, done + {name}), Synced(sha, managed, redist, done), name);
  }

  lemma SyncDirsStep(sha: Sha256, dirs: map<string, Dir>, managedDir: string, redistPath: string, done: set<string>, name: string)
    requires managedDir in dirs && name !in done
    ensures redistPath in dirs && NeedsCopy(sha, dirs[managedDir], dirs[redistPath], name) ==>
      SyncDirs(sha, dirs, managedDir, redistPath, done + {name})
      == SyncDirs(sha, dirs, managedDir, redistPath, done)[redistPath := Synced(sha, dirs[managedDir], dirs[redistPath], done)[name := dirs[managedDir][name]]]
    ensures !(redistPath in dirs && NeedsCopy(sha, dirs[managedDir], dirs[redistPath], name)) ==>
      SyncDirs(sha, dirs, managedDir, redistPath, done + {name}) == SyncDirs(sha, dirs, managedDir, redistPath, done)
  {
    if redistPath in dirs {
      SyncedStep(sha, dirs[managedDir], dirs[redistPath], done, name);
    }
  }

  /** No two same-named files of the two folders collide under the digest. */
  ghost predicate NoCollisions(sha: Sha256, managed: Dir, redist: Dir) {
    forall n :: n in managed && n in redist && sha(managed[n]) == sha(redist[n]) ==> managed[n] == redist[n]
  }

  /**
   * The sync creates no file, leaves every redist file without a managed
   * counterpart untouched, and leaves every one with a counterpart holding a
   * file of the managed file's hash; the reported names are exactly the ones
   * whose hash texts differed.
   */
  lemma SyncedRedist(sha: Sha256, managed: Dir, redist: Dir)
    ensures Synced(sha, managed, redist, managed.Keys).Keys == redist.Keys
    ensures forall n :: n in redist && n !in managed ==> Synced(sha, managed, redist, managed.Keys)[n] == redist[n]
    ensures forall n :: n in redist && n in managed ==>
      ContentHash(sha, Synced(sha, managed, redist, managed.Keys)[n]) == ContentHash(sha, managed[n])
    ensures forall n :: n in CopySet(sha, managed, redist) <==>
      n in managed && n in redist && sha(managed[n]) != sha(redist[n])
  {
    forall n | n in managed && n in redist {
      ContentHashInjective(sha, managed[n], redist[n]);
    }
  }

  /** Where the digest has no collision, every redist file with a managed counterpart ends up with the managed bytes. */
  lemma SyncedContents(sha: Sha256, managed: Dir, redist: Dir)
    requires NoCollisions(sha, managed, redist)
    ensures forall n :: n in redist && n in managed ==> Synced(sha, managed, redist, managed.Keys)[n] == managed[n]
  {
    forall n | n in redist && n in managed
      ensures Synced(sha, managed, redist, managed.Keys)[n] == managed[n]
    {
      ContentHashInjective(sha, managed[n], redist[n]);
    }
  }

  /**
   * The manifest describes the redist folder it was written to: every managed
   * file that has a redist counterpart is listed with the hash of the bytes now
   * in the redist folder, copied this run or not.
   */
  lemma ManifestMatchesRedist(sha: Sha256, serialize: map<string, string> -> string, managed: Dir, redist: Dir)
    ensures Manifest(sha, managed).Keys == managed.Keys
    ensures forall n :: n in managed && n in redist && n != ManifestFileName ==>
      Manifest(sha, managed)[n] == ContentHash(sha, AfterUpdate(sha, serialize, managed, redist)[n])
  {
    SyncedRedist(sha, managed, redist);
  }

  /**
   * Running the sync a second time on an unchanged managed folder copies nothing
   * and leaves the redist folder, manifest included, as the first run left it.
   * (A managed file named like the manifest would be overwritten by the manifest
   * after every copy, so it is excluded.)
   */
  lemma UpdateIdempotent(sha: Sha256, serialize: map<string, string> -> string, managed: Dir, redist: Dir)
    requires ManifestFileName !in managed
    ensures CopySet(sha, managed, AfterUpdate(sha, serialize, managed, redist)) == {}
    ensures AfterUpdate(sha, serialize, managed, AfterUpdate(sha, serialize, managed, redist))
         == AfterUpdate(sha, serialize, managed, redist)
  {
    var once := AfterUpdate(sha, serialize, managed, redist);
    SyncedRedist(sha, managed, redist);
    forall n | n in managed
      ensures !NeedsCopy(sha, managed, once, n)
    {
      if n in once {
        assert n in redist;
      }
    }
    assert CopySet(sha, managed, once) == {};
    var twice := Synced(sha, managed, once, managed.Keys);
    assert twice == once;
  }

  /**
   * The redist test's scenario: managed Test.dll "hello" over redist "stale",
   * and Unchanged.dll "same" on both sides. Given that the two digests of
   * "hello" and "stale" differ, only Test.dll is copied and reported, it ends
   * with "hello", and the manifest lists both files.
   */
  lemma UpdaterTestScenario(sha: Sha256, serialize: map<string, string> -> string, managed: Dir, redist: Dir)
    requires managed == map["Test.dll" := [104, 101, 108, 108, 111], "Unchanged.dll" := [115, 97, 109, 101]]
    requires redist == map["Test.dll" := [115, 116, 97, 108, 101], "Unchanged.dll" := [115, 97, 109, 101]]
    requires sha(managed["Test.dll"]) != sha(redist["Test.dll"])
    ensures CopySet(sha, managed, redist) == {"Test.dll"}
    ensures AfterUpdate(sha, serialize, managed, redist)["Test.dll"] == managed["Test.dll"]
    ensures AfterUpdate(sha, serialize, managed, redist)["Unchanged.dll"] == redist["Unchanged.dll"]
    ensures Manifest(sha, managed).Keys == {"Test.dll", "Unchanged.dll"}
    ensures UpdatedPaths("source", "target", CopySet(sha, managed, redist))
         == map[FilePath("source", "Test.dll") := FilePath("target", "Test.dll")]
  {
    assert NeedsCopy(sha, managed, redist, "Test.dll") by {
      ContentHashInjective(sha, managed["Test.dll"], redist["Test.dll"]);
    }
    assert !NeedsCopy(sha, managed, redist, "Unchanged.dll");
    assert CopySet(sha, managed, redist) == {"Test.dll"} by {
      assert managed.Keys == {"Test.dll", "Unchanged.dll"};
    }
    assert "Test.dll" != ManifestFileName && "Unchanged.dll" != ManifestFileName;
    UpdatedPathsStep("source", "target", {}, "Test.dll");
    assert {} + {"Test.dll"} == {"Test.dll"};
  }
}
