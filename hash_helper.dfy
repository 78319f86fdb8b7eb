/**
 * Content digests: SHA-256 (FIPS 180-4) is not modelled; it is a parameter of
 * type Sha256, any function from bytes to 32 bytes. What the tool compares is the
 * lowercase hex text of that digest, ContentHash.
 */
module HashHelper {
  import opened Wrappers
  import opened Hex
  import opened Files

  const DigestLength: nat := 32

  type Digest = d: seq<byte> | |d| == DigestLength witness seq(32, _ => 0)

  type Sha256 = seq<byte> -> Digest

  /** The hash text both revisions compare: lowercase hex of the digest. */
  function ContentHash(sha: Sha256, data: seq<byte>): (h: string)
    ensures |h| == 2 * DigestLength
    ensures forall i :: 0 <= i < |h| ==> IsLowerHexChar(h[i])
  {
    LowerHex(sha(data))
  }

  /** Two hash texts are equal exactly when the two digests are. */
  lemma ContentHashInjective(sha: Sha256, a: seq<byte>, b: seq<byte>)
    ensures ContentHash(sha, a) == ContentHash(sha, b) <==> sha(a) == sha(b)
  {
    LowerHexInjective(sha(a), sha(b));
  }

  /**
   * HashHelper.GetFileHash: read the file, digest it, Convert.ToHexString, then
   * ToLowerInvariant. Opening the file may throw.
   */
  method GetFileHash(fs: FileSystem, sha: Sha256, path: FilePath) returns (r: Result<string, IoError>)
    ensures r.Ok? <==> fs.Readable(path)
    ensures r.Ok? ==> r.value == ContentHash(sha, fs.dirs[path.dir][path.name])
    ensures r.Err? ==> r.error == fs.ReadError(path)
  {
    var bytes := fs.ReadAllBytes(path);
    if bytes.Err? {
      return Err(bytes.error);
    }
    var hash := sha(bytes.value);
    LoweredUpperHex(hash);
    return Ok(ToLowerInvariant(UpperHex(hash)));
  }
}
