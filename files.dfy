/**
 * The part of the file system the tool touches: directories holding named files
 * of bytes. Paths are (directory, file name) pairs. Files whose opening fails
 * (held open by another process, no permission) are `locked`; files that can be
 * read but not overwritten are `readOnly`. These two sets are what makes the
 * tool's I/O exceptions reachable in the model.
 */
module Files {
  import opened Wrappers
  import opened Hex

  /** Path.Combine(dir, name). */
  datatype FilePath = FilePath(dir: string, name: string)

  datatype IoError =
    | DirectoryNotFound(dir: string)   // DirectoryNotFoundException
    | FileNotFound(path: FilePath)     // FileNotFoundException
    | AccessDenied(path: FilePath)     // IOException / UnauthorizedAccessException

  type Dir = map<string, seq<byte>>

  /** UTF-8 (RFC 3629) encoding of a string, as File.WriteAllText stores text. */
  function Utf8(s: string): (bs: seq<byte>)
    ensures |s| <= |bs| <= 4 * |s|
    ensures (forall i :: 0 <= i < |s| ==> s[i] as int < 0x80) ==>
      |bs| == |s| && forall i :: 0 <= i < |s| ==> bs[i] == s[i] as int
  {
    if s == [] then [] else Utf8Char(s[0]) + Utf8(s[1..])
  }

  function Utf8Char(c: char): (bs: seq<byte>)
    ensures 1 <= |bs| <= 4
  {
    var cp := c as int;
    if cp < 0x80 then [cp]
    else if cp < 0x800 then [0xC0 + cp / 0x40, 0x80 + cp % 0x40]
    else if cp < 0x1_0000 then [0xE0 + cp / 0x1000, 0x80 + cp / 0x40 % 0x40, 0x80 + cp % 0x40]
    else [0xF0 + cp / 0x4_0000, 0x80 + cp / 0x1000 % 0x40, 0x80 + cp / 0x40 % 0x40, 0x80 + cp % 0x40]
  }

  class FileSystem {
    var dirs: map<string, Dir>
    var locked: set<FilePath>
    var readOnly: set<FilePath>

    constructor (dirs: map<string, Dir>, locked: set<FilePath>, readOnly: set<FilePath>)
      ensures this.dirs == dirs && this.locked == locked && this.readOnly == readOnly
    {
      this.dirs := dirs;
      this.locked := locked;
      this.readOnly := readOnly;
    }

    /** File.Exists. */
    /** File.Exists: false, not an exception, when the folder is missing. */
    function FileExists(p: FilePath): (b: bool)
      reads this
      ensures p.dir !in dirs ==> !b
      ensures b ==> p.name in dirs[p.dir]
    {
      p.dir in dirs && p.name in dirs[p.dir]
    }

    predicate Readable(p: FilePath)
      reads this
    {
      FileExists(p) && p !in locked
    }

    predicate Writable(p: FilePath)
      reads this
    {
      p.dir in dirs && p !in locked && p !in readOnly
    }

    /** The exception that opening p for reading throws. */
    function ReadError(p: FilePath): IoError
      reads this
    {
      if p.dir !in dirs then DirectoryNotFound(p.dir)
      else if p.name !in dirs[p.dir] then FileNotFound(p)
      else AccessDenied(p)
    }

    /** The exception that opening p for writing throws. */
    function WriteError(p: FilePath): IoError
      reads this
    {
      if p.dir !in dirs then DirectoryNotFound(p.dir) else AccessDenied(p)
    }

    /** File.ReadAllBytes (and File.OpenRead followed by reading to the end). */
    method ReadAllBytes(p: FilePath) returns (r: Result<seq<byte>, IoError>)
      ensures r.Ok? <==> Readable(p)
      ensures r.Ok? ==> r.value == dirs[p.dir][p.name]
      ensures r.Err? ==> r.error == ReadError(p)
    {
      if !Readable(p) {
        return Err(ReadError(p));
      }
      return Ok(dirs[p.dir][p.name]);
    }

    /** FileInfo.CopyTo(dst, overwrite: true): dst receives src's bytes. */
    method CopyTo(src: FilePath, dst: FilePath) returns (r: Result<(), IoError>)
      modifies this
      ensures locked == old(locked) && readOnly == old(readOnly)
      ensures r.Ok? <==> old(Readable(src)) && old(Writable(dst))
      ensures r.Err? ==> r.error == (if !old(Readable(src)) then old(ReadError(src)) else old(WriteError(dst)))
      ensures r.Ok? ==> dirs == old(dirs)[dst.dir := old(dirs)[dst.dir][dst.name := old(dirs)[src.dir][src.name]]]
      ensures r.Err? ==> dirs == old(dirs)
    {
      if !Readable(src) {
        return Err(ReadError(src));
      }
      if !Writable(dst) {
        return Err(WriteError(dst));
      }
      dirs := dirs[dst.dir := dirs[dst.dir][dst.name := dirs[src.dir][src.name]]];
      return Ok(());
    }

    /** File.WriteAllText: the file's whole content becomes the UTF-8 of text. */
    method WriteAllText(p: FilePath, text: string) returns (r: Result<(), IoError>)
      modifies this
      ensures locked == old(locked) && readOnly == old(readOnly)
      ensures r.Ok? <==> old(Writable(p))
      ensures r.Err? ==> r.error == old(WriteError(p)) && dirs == old(dirs)
      ensures r.Ok? ==> dirs == old(dirs)[p.dir := old(dirs)[p.dir][p.name := Utf8(text)]]
    {
      if !Writable(p) {
        return Err(WriteError(p));
      }
      dirs := dirs[p.dir := dirs[p.dir][p.name := Utf8(text)]];
      return Ok(());
    }
  }
}
