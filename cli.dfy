/**
 * What both revisions of the program's entry point share: the command-line
 * helpers (blank checks, the `--force` flag) and the shape of a run's result,
 * an exit code or an escaping exception, together with the ordered trace of
 * the changes the run made to the outside world.
 */
module Cli {
  import opened Wrappers
  import opened Hex

  /** Char.IsWhiteSpace: the Unicode space separators, line and paragraph separators, and the listed controls. */
  function IsWhiteSpace(c: char): (b: bool)
    ensures c == ' ' || c == '\t' || c == '\n' || c == '\r' ==> b
    ensures b ==> !('0' <= c <= '9') && !('A' <= c <= 'Z') && !('a' <= c <= 'z') && c != '-' && c != '.'
  {
    || ('\U{9}' <= c <= '\U{D}') || c == '\U{20}' || c == '\U{85}' || c == '\U{A0}'
    || c == '\U{1680}' || ('\U{2000}' <= c <= '\U{200A}') || c == '\U{2028}' || c == '\U{2029}'
    || c == '\U{202F}' || c == '\U{205F}' || c == '\U{3000}'
  }

  /** String.IsNullOrWhiteSpace on a string that is not null. */
  function IsBlank(s: string): (b: bool)
    ensures b <==> forall i :: 0 <= i < |s| ==> IsWhiteSpace(s[i])
  {
    if s == [] then true
    else if !IsWhiteSpace(s[0]) then false
    else
      var b := IsBlank(s[1..]);
      assert b <==> forall i :: 1 <= i < |s| ==> IsWhiteSpace(s[i]) by {
        assert forall i :: 1 <= i < |s| ==> s[i] == s[1..][i - 1];
      }
      b
  }

  /** String.IsNullOrWhiteSpace on a string that may be null (None). */
  predicate IsNullOrWhiteSpace(s: Option<string>) {
    s.None? || IsBlank(s.value)
  }

  const ForceFlag: string := "--force"

  function AsciiUpper(c: char): char {
    if 'a' <= c <= 'z' then (c as int - 'a' as int + 'A' as int) as char else c
  }

  /**
   * arg.Equals("--force", StringComparison.OrdinalIgnoreCase). The only
   * characters whose invariant upper case is one of "--FORCE" are the ASCII
   * letters themselves, so lowering ASCII letters decides the comparison.
   */
  function IsForceFlag(arg: string): (b: bool)
    ensures b <==> |arg| == |ForceFlag| && forall i :: 0 <= i < |arg| ==> arg[i] == ForceFlag[i] || arg[i] == AsciiUpper(ForceFlag[i])
  {
    |arg| == |ForceFlag| && forall i :: 0 <= i < |arg| ==> AsciiLower(arg[i]) == ForceFlag[i]
  }

  /** args.Any(x => x.Equals("--force", OrdinalIgnoreCase)). */
  function HasForceFlag(args: seq<string>): (force: bool)
    ensures force <==> exists i :: 0 <= i < |args| && IsForceFlag(args[i])
  {
    if args == [] then false
    else if IsForceFlag(args[0]) then true
    else
      var rest := HasForceFlag(args[1..]);
      assert rest <==> exists i :: 1 <= i < |args| && IsForceFlag(args[i]) by {
        assert forall i :: 1 <= i < |args| ==> args[i] == args[1..][i - 1];
      }
      rest
  }

  /** The flag may sit anywhere after the three positional arguments, in any letter case. */
  lemma ForceFlagExamples()
    ensures HasForceFlag(["C:/Unturned", "redist", "304930", "--force"])
    ensures HasForceFlag(["C:/Unturned", "redist", "304930", "--FORCE"])
    ensures HasForceFlag(["C:/Unturned", "redist", "304930", "--Force", "-v"])
    ensures !HasForceFlag(["C:/Unturned", "redist", "304930"])
    ensures !HasForceFlag(["C:/Unturned", "redist", "304930", "-force", "--forced"])
  {
    assert IsForceFlag(["C:/Unturned", "redist", "304930", "--force"][3]);
    assert IsForceFlag(["C:/Unturned", "redist", "304930", "--FORCE"][3]);
    assert IsForceFlag(["C:/Unturned", "redist", "304930", "--Force", "-v"][3]);
    var noFlag := ["C:/Unturned", "redist", "304930", "-force", "--forced"];
    assert !IsForceFlag(noFlag[0]) && !IsForceFlag(noFlag[1]) && !IsForceFlag(noFlag[2]);
    assert !IsForceFlag(noFlag[3]) && !IsForceFlag(noFlag[4]);
  }

  /** The operating system the tool runs on, as RuntimeInformation reports it. */
  datatype Platform = Linux | Windows | OtherPlatform

  /** A game data folder ("Unturned_Headless_Data" or "Unturned_Data"): absent, or present with or without its Managed folder. */
  datatype DataDir = Absent | Present(managedExists: bool)

  /** Which data folder GetUnturnedDataDirectoryName picked. */
  datatype DataDirKind = Headless | Usual

  /**
   * The package's .nuspec document: it may fail to load as XML, its metadata
   * element may be missing, or lack a version element.
   */
  datatype NuspecDoc = Unloadable | NoMetadata | NoVersionElement | VersionElement(value: string)

  /** How the redist sync ended: with an exception, or with the number of files it updated. */
  datatype SyncRun = SyncThrew | SyncDone(updatedCount: nat)

  /** The exceptions that can escape a run. */
  datatype Crash =
    | PlatformNotSupported          // PlatformNotSupportedException
    | DataDirectoryNotFound         // DirectoryNotFoundException from GetUnturnedDataDirectoryName
    | StatusFileNotFound            // FileNotFoundException for Status.json
    | AppManifestNotFound           // FileNotFoundException for steamapps/appmanifest_<appId>.acf
    | GameInfoUnreadable            // an exception from reading Status.json or the app manifest
    | NuspecUnreadable              // an exception from loading the nuspec as XML
    | NuspecMetadataMissing         // NullReferenceException: the nuspec has no metadata element
    | NuspecSaveFailed              // an exception from saving the nuspec
    | SyncFailed                    // an exception from the redist sync
    | CommitWriteFailed             // an exception from writing .commit

  datatype Outcome = Exit(code: int) | Threw(crash: Crash)

  /**
   * The changes a run makes outside itself, in the order it makes them. A save
   * or a commit write that throws changes nothing and leaves no effect; a sync
   * that throws keeps the copies it made before, so it is recorded either way.
   */
  datatype Effect =
    | SaveNuspec(version: string)   // the nuspec's version element set and the document saved
    | SyncRedist                    // the redist sync run, to its end or to an exception
    | WriteCommit(line: string)     // .commit in the game folder overwritten with the line
}
