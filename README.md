# UnturnedRedistUpdateTool, modelled in Dafny

UnturnedRedistUpdateTool keeps a NuGet "redist" package of Unturned's managed
assemblies up to date. A run does the following, stopping at the first check
that fails:

1. It checks its arguments: the game folder, the redist folder and the Steam app
   id, plus an optional `--force`.
2. It checks the game and redist folders on disk.
3. It compares the installed game version with the version in the package's
   `.nuspec`.
4. When the game version is new, it does three things in order:
   - writes the new version into the nuspec;
   - syncs the redist folder with the game's `Managed` folder;
   - writes a one-line `.commit` file into the game folder.

The sync works file by file:
- It skips a managed file when the redist folder has no file of that name, or
  one with the same SHA-256 hash.
- The current revision hashes every managed file, counterpart or not. The first
  revision checks for the counterpart first and hashes (after reading both
  files) only the files that have one.
- It copies every other file over its counterpart and reports the pair (managed
  path → redist path).
- The current revision also writes `manifest.sha256.json`, which maps every
  managed file name to its hash.

The project models both revisions of the repository:
- the current one (`src/UnturnedRedistUpdateTool`): `RedistUpdater`, `HashHelper`,
  `CommitFileWriter` and `Program.Main`;
- the first one (the single `UnturnedRedistUpdateTool/Program.cs`): its
  `UpdateRedist`, `HashHelper`, `GetUnturnedDataDirectoryName` and `Main`.

Modules:
- `Hex` (hex.dfy): Base16 text of bytes (section 8 of RFC 4648).
  - The lowercase form is proved to be decoded back and to be injective.
  - The uppercase form of `Convert.ToHexString` is proved to lower to it.
  - The dashed form of `BitConverter.ToString`, with its dashes removed, is
    proved to equal the uppercase form.
- `Files` (files.dfy): a file system object.
  - It holds folders that map file names to bytes.
  - Locked paths (which cannot be opened) and read-only paths (which cannot be
    written) make the I/O exceptions of `File.OpenRead`, `CopyTo` and
    `WriteAllText` reachable.
- `HashHelper` (hash_helper.dfy): the hash text the tool compares, which is the
  lowercase hex of the digest.
  - SHA-256 is a parameter: any function from bytes to 32 bytes.
- `SyncSpec` (sync_spec.dfy): what a sync means, independent of any loop:
  - which files need a copy;
  - what the redist folder holds afterwards;
  - the updated-files map and the manifest.
  - The sync's properties are proved here, including idempotence.
- `RedistUpdater` (redist_updater.dfy): the class and its `UpdateAsync`.
  - Its loop is proved against `SyncSpec`.
  - On an exception, the files copied before it stay copied.
- `CommitFile` (commit_file.dfy):
  - the `.commit` line builder and a parser that reads the line back, with
    round-trip lemmas;
  - the rows of the commit-file test;
  - the writer class with its injected clock.
- `Cli` (cli.dfy): the blank checks, the `--force` flag and the shapes of a run's
  outcome and effects.
- `Program` (program.dfy): the current `Main`, as a method over an `Environment`
  record.
  - The record holds what the run finds on disk, and whether each library call
    it makes returns (and with what) or throws.
  - The method returns the outcome (an exit code or an escaping exception) and
    the ordered trace of its effects: nuspec save, redist sync, commit write.
- `LegacyProgram` (legacy_program.dfy): the first revision.
  - Its sync is proved against the same `SyncSpec`.
  - Lemmas compare the two revisions' sync preconditions and data-folder lookups.

The source and the test at `tests/UnturnedRedistUpdateTool.Tests/RedistUpdaterTests.cs:26-36`
disagree. The test uses a three-argument `RedistUpdater` that returns a tuple,
and expects a manifest with one entry. The code (`src/UnturnedRedistUpdateTool/RedistUpdater.cs:28-29`)
records every managed file in the manifest. The model follows the code:
`SyncSpec.UpdaterTestScenario` proves that the test's scenario gives a
manifest of two entries.

## Model

| member | source | states |
|---|---|---|
| Hex.LowerHex | src/UnturnedRedistUpdateTool/HashHelper.cs:12 | lowercase Base16 has two characters per byte, each in 0-9a-f |
| Hex.LowerHexRoundTrip | src/UnturnedRedistUpdateTool/HashHelper.cs:12 | decoding the lowercase hex text gives back exactly the bytes |
| Hex.LowerHexInjective | src/UnturnedRedistUpdateTool/HashHelper.cs:12 | two hex texts are equal if and only if the byte sequences are equal |
| Hex.LoweredUpperHex | src/UnturnedRedistUpdateTool/HashHelper.cs:12 | `Convert.ToHexString(h).ToLowerInvariant()` is the lowercase Base16 of h |
| Hex.UpperHex | src/UnturnedRedistUpdateTool/HashHelper.cs:12 | `Convert.ToHexString` gives two characters per byte, each an uppercase hex digit 0-9A-F |
| Hex.DashedUpperHex | UnturnedRedistUpdateTool/Program.cs:218-219 | `BitConverter.ToString` of n > 0 bytes has 3n - 1 characters: a '-' at every third position and an uppercase hex digit everywhere else; no bytes give the empty text |
| Hex.UndashedIsUpperHex | UnturnedRedistUpdateTool/Program.cs:218-220 | `BitConverter.ToString(h)` with every '-' removed is `Convert.ToHexString(h)` |
| HashHelper.ContentHash | src/UnturnedRedistUpdateTool/HashHelper.cs:9-12 | the hash text has length 64 (twice the 32-byte digest), and every character is in 0-9a-f |
| HashHelper.ContentHashInjective | src/UnturnedRedistUpdateTool/HashHelper.cs:12 | two hash texts are equal if and only if the two SHA-256 digests are equal; this is the comparison the sync makes |
| HashHelper.GetFileHash | src/UnturnedRedistUpdateTool/HashHelper.cs:7-13 | succeeds if and only if the file can be opened, and then returns the lowercase hex of the digest of the file's bytes; otherwise it returns the open error |
| Files.Utf8 | src/UnturnedRedistUpdateTool/CommitFileWriter.cs:18 | each character takes one to four bytes, and an all-ASCII text is stored byte for byte, one byte per character |
| Files.FileSystem.FileExists | src/UnturnedRedistUpdateTool/RedistUpdater.cs:30 | `File.Exists` answers false, not an exception, when the folder is missing, and true only for a name the folder holds |
| Files.FileSystem.ReadAllBytes | UnturnedRedistUpdateTool/Program.cs:154-155 | returns the file's bytes when it exists and is not locked; otherwise it returns the matching error |
| Files.FileSystem.CopyTo | src/UnturnedRedistUpdateTool/RedistUpdater.cs:35 | on success the destination holds the source's bytes and nothing else changes; it fails, changing nothing, if and only if the source cannot be read or the destination cannot be written |
| Files.FileSystem.WriteAllText | src/UnturnedRedistUpdateTool/RedistUpdater.cs:39 | on success the file's whole content is replaced by the text's UTF-8 bytes; it fails, changing nothing, if and only if the path cannot be written |
| SyncSpec.NeedsCopy | src/UnturnedRedistUpdateTool/RedistUpdater.cs:30-35 | the copy decision: a managed file is copied exactly when a same-named redist file exists and the two hash texts differ. It has no contract of its own; SyncSpec.SyncedRedist proves the copied names are exactly those whose digests differ |
| SyncSpec.Synced | src/UnturnedRedistUpdateTool/RedistUpdater.cs:24-37 | the redist folder once the managed files in a given set have been considered. It has no contract of its own; SyncSpec.SyncDirsFrame, SyncSpec.SyncedStep and SyncSpec.SyncedRedist state what it holds |
| SyncSpec.Manifest | src/UnturnedRedistUpdateTool/RedistUpdater.cs:29 | the manifest maps each managed file name to that file's hash text. It has no contract of its own; SyncSpec.ManifestMatchesRedist states its keys and values |
| SyncSpec.AfterUpdate | src/UnturnedRedistUpdateTool/RedistUpdater.cs:24-40 | the redist folder after a successful update: synced over every managed file, then the manifest file written. It has no contract of its own; SyncSpec.ManifestMatchesRedist and SyncSpec.UpdateIdempotent state its properties |
| SyncSpec.UpdatedPaths | src/UnturnedRedistUpdateTool/RedistUpdater.cs:26-27 | keys are exactly the managed-folder paths of the given names, each mapped to the redist path of the same file name |
| SyncSpec.SyncDirsFrame | src/UnturnedRedistUpdateTool/RedistUpdater.cs:24-37 | a partial sync creates no folder or file, never writes the managed folder or any folder other than the redist one, and leaves the files not yet considered as they were |
| SyncSpec.SyncedStep | src/UnturnedRedistUpdateTool/RedistUpdater.cs:30-35 | considering one more managed file overwrites its counterpart with the managed bytes when the hash texts differ, and otherwise changes nothing |
| SyncSpec.SyncedRedist | src/UnturnedRedistUpdateTool/RedistUpdater.cs:30-35 | after the sync the redist folder has the same file names; files without a managed counterpart are untouched; every counterpart has the managed file's hash; the copied names are exactly those present on both sides whose digests differ |
| SyncSpec.SyncedContents | src/UnturnedRedistUpdateTool/RedistUpdater.cs:35 | when the digest has no collision on the two folders' files, every counterpart ends up with exactly the managed bytes |
| SyncSpec.ManifestMatchesRedist | src/UnturnedRedistUpdateTool/RedistUpdater.cs:28-39 | the manifest has one entry per managed file name, whether or not the file was copied; the entry of every file with a redist counterpart equals the hash of what the redist folder holds there afterwards |
| SyncSpec.UpdateIdempotent | src/UnturnedRedistUpdateTool/RedistUpdater.cs:28-39 | a second sync with the same managed folder copies nothing, and leaves the redist folder, manifest included, as the first sync left it |
| SyncSpec.UpdaterTestScenario | tests/UnturnedRedistUpdateTool.Tests/RedistUpdaterTests.cs:20-42 | for "hello" over "stale" plus an unchanged file: only Test.dll is copied and reported as source → target, it ends with "hello", the unchanged file stays, and the manifest lists both files |
| RedistUpdater.RedistUpdater.constructor | src/UnturnedRedistUpdateTool/RedistUpdater.cs:11-15 | the updater keeps the managed folder and the redist path it is given |
| RedistUpdater.RedistUpdater.SyncFile | src/UnturnedRedistUpdateTool/RedistUpdater.cs:26-36 | one loop iteration returns the managed file's hash and whether it copied; it copies exactly when a counterpart exists and the hash texts differ; it throws exactly when a file it must open or write is locked or read-only |
| RedistUpdater.RedistUpdater.SyncFiles | src/UnturnedRedistUpdateTool/RedistUpdater.cs:24-37 | the loop leaves the file system synced over the files it considered, each of which could be processed; an exception means some managed file it had not considered cannot be processed, and that file's counterpart is untouched; on success it has considered every managed file, the manifest maps every managed name to its hash, and the updated map is exactly the copied files |
| RedistUpdater.RedistUpdater.UpdateAsync | src/UnturnedRedistUpdateTool/RedistUpdater.cs:17-41 | a missing or empty managed folder throws before any change; success happens exactly when every file can be processed and the manifest written; on success the result is the updated map and the redist folder is synced and holds the manifest; on an exception, the copies of the files considered before it stay, every such file could be processed, and either an unconsidered managed file cannot be processed or every file was considered and the manifest cannot be written |
| CommitFile.FormatDate | src/UnturnedRedistUpdateTool/CommitFileWriter.cs:17 | "dd MMMM yyyy": a blank after the two day digits and before the four year digits, and the month's full name between them |
| CommitFile.CommitTail | src/UnturnedRedistUpdateTool/CommitFileWriter.cs:16-17 | the text after the date starts with " - Version ", ends with " [Forced]" for a forced run and with ')' otherwise |
| CommitFile.CommitLine | src/UnturnedRedistUpdateTool/CommitFileWriter.cs:16-17 | the .commit line: the date, then the tail. It has no contract of its own; CommitFile.CommitLineRoundTrip and CommitFile.ForcedNoteIffForce state what it holds |
| CommitFile.TwoDigitsRoundTrip | src/UnturnedRedistUpdateTool/CommitFileWriter.cs:17 | the zero-padded "dd" day reads back as the day |
| CommitFile.FourDigitsRoundTrip | src/UnturnedRedistUpdateTool/CommitFileWriter.cs:17 | the zero-padded "yyyy" year reads back as the year |
| CommitFile.MonthNamesFacts | src/UnturnedRedistUpdateTool/CommitFileWriter.cs:17 | the twelve "MMMM" month names are distinct and contain no blank |
| CommitFile.FormatDateRoundTrip | src/UnturnedRedistUpdateTool/CommitFileWriter.cs:17 | the "dd MMMM yyyy" date is read back as the same date, whatever text follows it |
| CommitFile.ForcedNoteIffForce | src/UnturnedRedistUpdateTool/CommitFileWriter.cs:16-17 | the line ends with " [Forced]" if and only if force is set; an unforced line ends with ')' |
| CommitFile.CommitTailRoundTrip | src/UnturnedRedistUpdateTool/CommitFileWriter.cs:16-17 | provided the build id has no '(', the text after the date gives back the version, the build id and the force flag verbatim |
| CommitFile.CommitLineRoundTrip | src/UnturnedRedistUpdateTool/CommitFileWriter.cs:16-17 | the whole line gives back the date, the version, the build id (leading zeros kept) and the force flag, provided the build id has no '(' |
| CommitFile.FormatDate05July2025 | tests/UnturnedRedistUpdateTool.Tests/CommitFileWriterTests.cs:10 | 5 July 2025 formats as "05 July 2025" |
| CommitFile.FormatDate30January2024 | tests/UnturnedRedistUpdateTool.Tests/CommitFileWriterTests.cs:11 | 30 January 2024 formats as "30 January 2024" |
| CommitFile.FormatDate05February2030 | tests/UnturnedRedistUpdateTool.Tests/CommitFileWriterTests.cs:12 | 5 February 2030 formats as "05 February 2030" |
| CommitFile.FormatDate05July2027 | tests/UnturnedRedistUpdateTool.Tests/CommitFileWriterTests.cs:13 | 5 July 2027 formats as "05 July 2027" |
| CommitFile.FormatDate20June2028 | tests/UnturnedRedistUpdateTool.Tests/CommitFileWriterTests.cs:14 | 20 June 2028 formats as "20 June 2028" |
| CommitFile.FormatDate06June2028 | tests/UnturnedRedistUpdateTool.Tests/CommitFileWriterTests.cs:15-16 | 6 June 2028 formats as "06 June 2028" |
| CommitFile.FormatDate01January2030 | tests/UnturnedRedistUpdateTool.Tests/CommitFileWriterTests.cs:17 | 1 January 2030 formats as "01 January 2030" |
| CommitFile.CommitLineExample1 | tests/UnturnedRedistUpdateTool.Tests/CommitFileWriterTests.cs:10 | the test's first row gives "05 July 2025 - Version 3.25.7.4 (4202) [Forced]" |
| CommitFile.CommitLineExample2 | tests/UnturnedRedistUpdateTool.Tests/CommitFileWriterTests.cs:11 | the second row gives "30 January 2024 - Version 3.25.6.0 (1) [Forced]" |
| CommitFile.CommitLineExample3 | tests/UnturnedRedistUpdateTool.Tests/CommitFileWriterTests.cs:12 | the third row gives "05 February 2030 - Version 3.25.6.12 (0) [Forced]" |
| CommitFile.CommitLineExample4 | tests/UnturnedRedistUpdateTool.Tests/CommitFileWriterTests.cs:13 | the fourth row gives "05 July 2027 - Version 3.25.7.4 (2351)" |
| CommitFile.CommitLineExample5 | tests/UnturnedRedistUpdateTool.Tests/CommitFileWriterTests.cs:14 | the fifth row gives "20 June 2028 - Version 3.28.2.0 (3805)" |
| CommitFile.CommitLineExample6 | tests/UnturnedRedistUpdateTool.Tests/CommitFileWriterTests.cs:15 | the sixth row gives "06 June 2028 - Version 3.28.2.0 (6960)" |
| CommitFile.CommitLineExample7 | tests/UnturnedRedistUpdateTool.Tests/CommitFileWriterTests.cs:16 | the seventh row gives "06 June 2028 - Version 3.0.2.8 (6960)" |
| CommitFile.CommitLineExample8 | tests/UnturnedRedistUpdateTool.Tests/CommitFileWriterTests.cs:17 | the eighth row gives "01 January 2030 - Version 3.30.0.0 (0011)", with the build id's leading zeros kept |
| CommitFile.CommitFileWriter.constructor | src/UnturnedRedistUpdateTool/CommitFileWriter.cs:9-12 | the writer keeps the injected clock, if one is given |
| CommitFile.CommitFileWriter.Now | src/UnturnedRedistUpdateTool/CommitFileWriter.cs:11 | the time stamped is the injected clock's when there is one, and UTC now otherwise |
| CommitFile.CommitFileWriter.WriteAsync | src/UnturnedRedistUpdateTool/CommitFileWriter.cs:14-19 | on success `<path>/.commit` holds exactly the one commit line for the writer's time, and nothing else changes; it fails, changing nothing, if and only if the file cannot be written |
| Cli.IsWhiteSpace | src/UnturnedRedistUpdateTool/Program.cs:31 | space, tab, line feed and carriage return are white space; no ASCII digit or letter, '-' or '.' is |
| Cli.IsForceFlag | src/UnturnedRedistUpdateTool/Program.cs:29 | an argument is the flag exactly when it has seven characters, each the character of "--force" or its ASCII upper case |
| Cli.IsBlank | src/UnturnedRedistUpdateTool/Program.cs:31 | a string is blank if and only if every character is .NET white space |
| Cli.HasForceFlag | src/UnturnedRedistUpdateTool/Program.cs:29 | force is set if and only if some argument equals "--force" ignoring ASCII letter case |
| Cli.ForceFlagExamples | src/UnturnedRedistUpdateTool/Program.cs:29 | the flag is found in any letter case and at any position after the three arguments; "-force" and "--forced" are not the flag |
| Program.DataDirectoryName | src/UnturnedRedistUpdateTool/Program.cs:127-148 | Linux accepts only Unturned_Headless_Data and Windows only Unturned_Data; in every other case it throws DirectoryNotFoundException |
| Program.Run | src/UnturnedRedistUpdateTool/Program.cs:7-117 | the exit code is 0 or 1. An unsupported platform throws. Fewer than three arguments, a blank app id, a missing game folder, redist folder or nuspec, a missing Managed folder, a blank game version or build id and a missing nuspec version element each return 1 with no effect. A missing app manifest, a missing data folder, an unreadable game info file, a nuspec that does not load or has no metadata, and a failing nuspec save each throw with no effect. An unchanged composed version returns 1 with no effect. Otherwise the nuspec is saved before the sync; a sync that throws escapes, zero updated files return 1, and a .commit that cannot be written throws, each after the save and the sync only. The run returns 0 exactly when the version is new, the save succeeds, the sync updated at least one file and .commit could be written, and then its effects are the save, the sync and the commit line, in that order |
| LegacyProgram.GetHashFromArray | UnturnedRedistUpdateTool/Program.cs:212-222 | the dash-free, lowered `BitConverter` text is the same hash text as the current `GetFileHash` produces |
| LegacyProgram.IsSameHashes | UnturnedRedistUpdateTool/Program.cs:223-226 | the two hash texts are equal if and only if the two digests are |
| LegacyProgram.UpdateFile | UnturnedRedistUpdateTool/Program.cs:146-168 | one loop iteration: a file without a counterpart is skipped before anything is read; otherwise the file is copied exactly when the hash texts differ; it throws exactly when a file it opens is locked or its copy target is read-only |
| LegacyProgram.UpdateRedist | UnturnedRedistUpdateTool/Program.cs:135-172 | a missing or empty managed folder throws before any change. Success happens exactly when every file can be processed, and then the result is exactly the copied files as managed → redist paths. In every case the file system is synced over the files considered, each of which could be processed, so a rethrown failure leaves earlier copies in place; a failure means some managed file not yet considered cannot be processed, and its counterpart is untouched |
| LegacyProgram.CurrentSucceedsThenLegacySucceeds | UnturnedRedistUpdateTool/Program.cs:144-168 | whenever the current sync completes without an exception, the first revision's sync does too |
| LegacyProgram.LegacyToleratesLockedUnmatchedFile | UnturnedRedistUpdateTool/Program.cs:150-153 | the converse fails: a locked managed file with no redist counterpart stops only the current sync, which hashes it before looking for the counterpart |
| LegacyProgram.DataDirectoryName | UnturnedRedistUpdateTool/Program.cs:175-188 | the headless data folder is preferred, the usual one is the fallback, and otherwise it throws DirectoryNotFoundException |
| LegacyProgram.DataDirectoryRevisions | UnturnedRedistUpdateTool/Program.cs:175-188 | compared with the current lookup: on Linux the current lookup agrees where it succeeds and throws where the first fell back; on Windows it takes the usual folder even beside a headless one; other platforms always fail |
| LegacyProgram.LegacyProgram.constructor | UnturnedRedistUpdateTool/Program.cs:13-14 | the static app id starts unset and the force flag false |
| LegacyProgram.LegacyProgram.Run | UnturnedRedistUpdateTool/Program.cs:16-126 | the static app id and force flag are set once three arguments are present. An unsupported platform, a missing data folder, a missing Status.json, a GetInfo that throws, a nuspec that does not load or has no metadata, and a failing save each throw with no effect; fewer than three arguments, a blank app id, a missing folder, nuspec, steamapps or Managed folder, a missing version element and an unchanged game version each return 1 with no effect. The nuspec gets the bare game version and is saved before the sync; a sync that throws escapes, zero updated files return 1, and a .commit that cannot be written throws, each after the save and the sync only. The run returns 0 exactly when the version is new, the save succeeds, the sync updated at least one file and .commit could be written, and then its effects are the save, the sync and the commit line, in that order |

## Left out

- SHA-256 itself (FIPS 180-4) is not modelled: the digest is a parameter, any function from bytes to 32 bytes.
- SyncSpec.SyncedContents: "the redist file now holds the managed bytes" is proved only under a no-collision hypothesis on the two folders' files, because a function from arbitrary bytes to 32 bytes must collide somewhere. Without that hypothesis, SyncSpec.SyncedRedist gives hash equality.
- SyncSpec.UpdateIdempotent: excludes a managed file named `manifest.sha256.json`. Such a file would be copied and then overwritten by the manifest on every run.
- JSON serialisation of the manifest (`System.Text.Json`, with indentation and entry order) is a parameter `serialize`; only the manifest map is modelled.
- The order in which `GetFiles` yields the managed files is not fixed; the loops pick any pending file. Dictionary insertion order is not modelled.
- Real paths (`Path.Combine`, `FullName`) are pairs of folder and file name; case-insensitive file systems are not modelled.
- `async`/`Task` is modelled as sequential code; cancellation and concurrency are not modelled.
- `NuspecHandler` (XML loading, `GetVersion`, `CreateVersion`, `UpdateVersion`, `Save`):
  - The run sees the loaded nuspec as a record field (fails to load, no metadata, no version element, or a version) and whether its save succeeds as a flag; XML itself is not modelled.
  - `CreateVersion` is a function parameter.
- `GameInfoParser.FindAppManifestFile`/`ParseAsync` and the first revision's `GetInfo` (Status.json and the Valve KeyValues app manifest) are not modelled as parsers. The run receives whether the app manifest is found, whether the game info can be read (an exception such as `FileNotFoundException` when not) and, when it can, the version and build id, as record fields. `VersionTracker` is not part of this model.
- Clock and culture: the date is a calendar date given as input, and month names are the invariant English ones. Years outside 1..9999 are not representable.
- Hex.ToLowerInvariant: lowers only ASCII letters. That is exact for hex digits and dashes, the only input it receives here.
- Cli.IsWhiteSpace: its contract states only the ASCII cases above; the full `Char.IsWhiteSpace` table is its definition.
- Cli.IsForceFlag: compares ignoring ASCII letter case only. No other character case-folds to a letter of "--force" under ordinal comparison, so this is exact.
- Platform detection (`RuntimeInformation`) is an input; console output is left out; the `#if DEBUG` default arguments are left out.
- CommitFile.CommitLineRoundTrip: requires that the build id contain no '('. With one, the parser cannot tell where the version ends; the writer itself has no such restriction.
- The tests that use the newer API (a three-argument `RedistUpdater` returning a tuple, static `GameInfoParser`, `NuspecHandler.CreateVersion`) are not followed where they contradict the code: the manifest covers every managed file.
