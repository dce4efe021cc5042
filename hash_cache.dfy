/**
 * The content-hash cache of Utils.cs. A file's 64-bit hash is memoised in a
 * sidecar `<file>.hash` of exactly 20 bytes: the format version as a
 * little-endian u32, the file's last-write time in seconds as a u64, and
 * the hash as a u64. A lookup trusts the sidecar only when it exists, has
 * exactly that size, carries version 1 and records exactly the file's
 * current last-write time.
 *
 * The 64-bit xxHash is a parameter `hash` yielding 8 bytes. The base64
 * strings the source passes hashes around in are a bijection on those 8
 * bytes, so the model passes the bytes themselves.
 */
module HashCache {
  import opened Base
  import opened Files

  const HashCacheVersion: u32 := 1
  /**
   * `Consts.HashFileExtension`. Its value lives in Consts.cs, which is not part
   * of this model; ".hash" is a placeholder, and the properties below only
   * need it to be non-empty.
   */
  const HashFileExtension: string := ".hash"
  const RecordSize: nat := 20

  /** The 8 bytes of a 64-bit hash. */
  type Hash64 = s: seq<byte> | |s| == 8 witness [0, 0, 0, 0, 0, 0, 0, 0]

  function SidecarPath(file: Path): Path
  {
    file + HashFileExtension
  }

  function Pow256(n: nat): nat
  {
    if n == 0 then 1 else 256 * Pow256(n - 1)
  }

  /** `BinaryWriter.Write` of an unsigned integer `width` bytes wide (and `BitConverter.GetBytes`): little-endian. */
  function LittleEndian(n: nat, width: nat): (r: seq<byte>)
    ensures |r| == width
  {
    if width == 0 then [] else [n % 256] + LittleEndian(n / 256, width - 1)
  }

  /** `BinaryReader.ReadUInt32`/`ReadUInt64` and `BitConverter.ToUInt64` on little-endian bytes. */
  function FromLittleEndian(bytes: seq<byte>): (r: nat)
    ensures r < Pow256(|bytes|)
  {
    if bytes == [] then 0 else bytes[0] + 256 * FromLittleEndian(bytes[1..])
  }

  lemma {:induction false} DecodeEncode(n: nat, width: nat)
    requires n < Pow256(width)
    ensures FromLittleEndian(LittleEndian(n, width)) == n
  {
    if width > 0 {
      DecodeEncode(n / 256, width - 1);
      assert LittleEndian(n, width)[1..] == LittleEndian(n / 256, width - 1);
    }
  }

  lemma {:induction false} EncodeDecode(bytes: seq<byte>)
    ensures LittleEndian(FromLittleEndian(bytes), |bytes|) == bytes
  {
    if bytes != [] {
      EncodeDecode(bytes[1..]);
      var n := FromLittleEndian(bytes);
      assert n % 256 == bytes[0] && n / 256 == FromLittleEndian(bytes[1..]);
    }
  }

  /** The sidecar record `WriteHashCache` writes for a version, a last-write time and a hash. */
  function EncodeRecord(version: u32, lastModified: u64, hash: Hash64): seq<byte>
  {
    LittleEndian(version, 4) + LittleEndian(lastModified, 8) + LittleEndian(FromLittleEndian(hash), 8)
  }

  /** The record is 20 bytes: the version, then the time, then the hash bytes unchanged. */
  lemma RecordLayout(version: u32, lastModified: u64, hash: Hash64)
    ensures |EncodeRecord(version, lastModified, hash)| == RecordSize
    ensures FromLittleEndian(EncodeRecord(version, lastModified, hash)[..4]) == version
    ensures FromLittleEndian(EncodeRecord(version, lastModified, hash)[4..12]) == lastModified
    ensures EncodeRecord(version, lastModified, hash)[12..] == hash
    ensures EncodeRecord(HashCacheVersion, lastModified, hash)[..4] == [1, 0, 0, 0]
  {
    var rec := EncodeRecord(version, lastModified, hash);
    assert rec[..4] == LittleEndian(version, 4);
    assert rec[4..12] == LittleEndian(lastModified, 8);
    assert rec[12..] == LittleEndian(FromLittleEndian(hash), 8);
    DecodeEncode(version, 4);
    DecodeEncode(lastModified, 8);
    EncodeDecode(hash);
  }

  /**
   * `TryGetHashCache`: the stored hash when the sidecar is present, exactly
   * 20 bytes long, of version 1, and records the file's current last-write
   * time; `None` (false with a null hash) otherwise. A sidecar whose source
   * file is gone is a miss.
   */
  function TryGetHashCache(files: map<Path, seq<byte>>, mtimes: map<Path, u64>, file: Path): (r: Option<Hash64>)
    ensures r.None? <==>
      || SidecarPath(file) !in files
      || |files[SidecarPath(file)]| != RecordSize
      || FromLittleEndian(files[SidecarPath(file)][..4]) != HashCacheVersion
      || file !in mtimes
      || FromLittleEndian(files[SidecarPath(file)][4..12]) != mtimes[file]
  {
    var hashFile := SidecarPath(file);
    if hashFile !in files then None
    else if |files[hashFile]| != RecordSize then None
    else
      var record := files[hashFile];
      if FromLittleEndian(record[..4]) != HashCacheVersion then None
      else if file !in mtimes || FromLittleEndian(record[4..12]) != mtimes[file] then None
      else Some(LittleEndian(FromLittleEndian(record[12..20]), 8))
  }

  /**
   * A lookup hits with `h` exactly when the sidecar holds the very record
   * `WriteHashCache` would write now for `h`.
   */
  lemma HashCacheHitIff(files: map<Path, seq<byte>>, mtimes: map<Path, u64>, file: Path, h: Hash64)
    ensures TryGetHashCache(files, mtimes, file) == Some(h) <==>
      file in mtimes && SidecarPath(file) in files &&
      files[SidecarPath(file)] == EncodeRecord(HashCacheVersion, mtimes[file], h)
  {
    var sc := SidecarPath(file);
    if file in mtimes && sc in files && files[sc] == EncodeRecord(HashCacheVersion, mtimes[file], h) {
      CurrentRecordHits(files, mtimes, file, h);
    }
    if TryGetHashCache(files, mtimes, file) == Some(h) {
      HitIsCurrentRecord(files, mtimes, file, h);
    }
  }

  lemma CurrentRecordHits(files: map<Path, seq<byte>>, mtimes: map<Path, u64>, file: Path, h: Hash64)
    requires file in mtimes && SidecarPath(file) in files
    requires files[SidecarPath(file)] == EncodeRecord(HashCacheVersion, mtimes[file], h)
    ensures TryGetHashCache(files, mtimes, file) == Some(h)
  {
    var sc := SidecarPath(file);
    RecordLayout(HashCacheVersion, mtimes[file], h);
    assert files[sc][12..20] == h;
    EncodeDecode(h);
  }

  lemma HitIsCurrentRecord(files: map<Path, seq<byte>>, mtimes: map<Path, u64>, file: Path, h: Hash64)
    requires TryGetHashCache(files, mtimes, file) == Some(h)
    ensures file in mtimes && SidecarPath(file) in files
    ensures files[SidecarPath(file)] == EncodeRecord(HashCacheVersion, mtimes[file], h)
  {
    var record := files[SidecarPath(file)];
    assert record == record[..4] + record[4..12] + record[12..20];
    EncodeDecode(record[..4]);
    EncodeDecode(record[4..12]);
    EncodeDecode(record[12..20]);
    DecodeEncode(FromLittleEndian(record[12..20]), 8);
  }

  lemma SidecarIsAnotherFile(file: Path)
    ensures SidecarPath(file) != file
  {
    assert |SidecarPath(file)| == |file| + 5;
  }

  /** Right after a sidecar is written for `h`, a lookup of the unchanged file hits with `h`. */
  lemma LookupAfterWriteHits(files: map<Path, seq<byte>>, mtimes: map<Path, u64>, file: Path, h: Hash64, now: u64)
    requires file in mtimes
    ensures TryGetHashCache(
      files[SidecarPath(file) := EncodeRecord(HashCacheVersion, mtimes[file], h)],
      mtimes[SidecarPath(file) := now], file) == Some(h)
  {
    SidecarIsAnotherFile(file);
    HashCacheHitIff(
      files[SidecarPath(file) := EncodeRecord(HashCacheVersion, mtimes[file], h)],
      mtimes[SidecarPath(file) := now], file, h);
  }

  /** Touching the file so that its last-write time changes makes the old sidecar a miss, whatever the content. */
  lemma TouchInvalidates(files: map<Path, seq<byte>>, mtimes: map<Path, u64>, file: Path, h: Hash64, touched: u64)
    requires file in mtimes && SidecarPath(file) in files
    requires files[SidecarPath(file)] == EncodeRecord(HashCacheVersion, mtimes[file], h)
    requires touched != mtimes[file]
    ensures TryGetHashCache(files, mtimes[file := touched], file) == None
  {
    RecordLayout(HashCacheVersion, mtimes[file], h);
  }

  /**
   * `FileHash(file, nullOnIOError)`: the hash of the file's bytes; a missing
   * file raises an IOException, or yields null when `nullOnIOError` is set.
   */
  function FileHash(files: map<Path, seq<byte>>, file: Path, nullOnIOError: bool, hash: seq<byte> -> Hash64): (r: Result<Option<Hash64>>)
    ensures r.Failure? <==> file !in files && !nullOnIOError
    ensures r == Success(None) <==> file !in files && nullOnIOError
  {
    if file in files then Success(Some(hash(files[file])))
    else if nullOnIOError then Success(None)
    else Failure(FileNotFound)
  }

  /** `WriteHashCache`: overwrite the sidecar with the record for `hash` and the file's current last-write time. */
  method WriteHashCache(fs: FileSystem, file: Path, hash: Hash64, now: u64)
    requires fs.Valid() && file in fs.files
    modifies fs
    ensures fs.Valid() && fs.dirs == old(fs.dirs)
    ensures fs.files == old(fs.files)[SidecarPath(file) := EncodeRecord(HashCacheVersion, old(fs.mtimes[file]), hash)]
    ensures fs.mtimes == old(fs.mtimes)[SidecarPath(file) := now]
  {
    var lastModified := fs.mtimes[file];
    var record := LittleEndian(HashCacheVersion, 4) + LittleEndian(lastModified, 8) + LittleEndian(FromLittleEndian(hash), 8);
    fs.WriteAllBytes(SidecarPath(file), record, now);
  }

  /**
   * `FileHashCached` (and `FileHashCachedAsync`, which differs only in
   * awaiting the hash): a hit returns the stored hash without hashing; a
   * miss hashes the file and, when that yields a hash, rewrites the sidecar.
   * `hashed` tells whether the hash function was run.
   */
  method FileHashCached(fs: FileSystem, file: Path, nullOnIOError: bool, hash: seq<byte> -> Hash64, now: u64)
    returns (r: Result<Option<Hash64>>, hashed: bool)
    requires fs.Valid()
    modifies fs
    ensures fs.Valid() && fs.dirs == old(fs.dirs)
    ensures hashed <==> TryGetHashCache(old(fs.files), old(fs.mtimes), file).None?
    ensures !hashed ==> r == Success(TryGetHashCache(old(fs.files), old(fs.mtimes), file))
    ensures hashed ==> r == FileHash(old(fs.files), file, nullOnIOError, hash)
    ensures hashed && r.Success? && r.value.Some? ==>
      && fs.files == old(fs.files)[SidecarPath(file) := EncodeRecord(HashCacheVersion, old(fs.mtimes[file]), r.value.value)]
      && fs.mtimes == old(fs.mtimes)[SidecarPath(file) := now]
    ensures !(hashed && r.Success? && r.value.Some?) ==> fs.files == old(fs.files) && fs.mtimes == old(fs.mtimes)
    ensures r.Success? && r.value.Some? ==> TryGetHashCache(fs.files, fs.mtimes, file) == r.value
  {
    var found := TryGetHashCache(fs.files, fs.mtimes, file);
    if found.Some? {
      return Success(found), false;
    }
    hashed := true;
    r := FileHash(fs.files, file, nullOnIOError, hash);
    if r.Success? && r.value.Some? {
      LookupAfterWriteHits(fs.files, fs.mtimes, file, r.value.value, now);
      WriteHashCache(fs, file, r.value.value, now);
    }
  }

  /** Hashing an unchanged file twice through the cache runs the hash at most once and agrees. */
  method FileHashCachedTwice(fs: FileSystem, file: Path, hash: seq<byte> -> Hash64, now1: u64, now2: u64)
    returns (first: Result<Option<Hash64>>, second: Result<Option<Hash64>>, hashedAgain: bool)
    requires fs.Valid()
    modifies fs
    ensures first.Success? && first.value.Some? ==> second == first && !hashedAgain
  {
    var hashedFirst;
    first, hashedFirst := FileHashCached(fs, file, true, hash, now1);
    second, hashedAgain := FileHashCached(fs, file, true, hash, now2);
  }
}
