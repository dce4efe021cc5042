/**
 * The patch cache of Utils.cs: binary diffs memoised in a flat directory,
 * one file per pair of inputs named `<hex(hash a)>_<hex(hash b)>.patch`.
 * The diff (BSDiff) is a deterministic parameter `diff`; the 64-bit hash is
 * the parameter `hash` shared with the hash cache. The model runs one
 * caller at a time, so the publishing rename always succeeds.
 */
module PatchCache {
  import opened Base
  import opened Files
  import opened Hex
  import opened HashCache
  import opened Streams

  /** `Consts.PatchCacheFolder`; its actual value lives in Consts.cs, which is not part of this model. */
  const PatchCacheFolder: Path := "patch_cache"

  /** The cache file for a pair of hashes. */
  function PatchPath(hashA: Hash64, hashB: Hash64): Path
  {
    Combine(PatchCacheFolder, HexOf(hashA) + "_" + HexOf(hashB) + ".patch")
  }

  /** The temporary file a `CreatePatch` writes before publishing, named by a fresh GUID. */
  function TempPath(guid: string): Path
  {
    Combine(PatchCacheFolder, guid + ".tmp")
  }

  /** Distinct pairs of hashes never share a cache file. */
  lemma PatchPathInjective(a1: Hash64, b1: Hash64, a2: Hash64, b2: Hash64)
    requires PatchPath(a1, b1) == PatchPath(a2, b2)
    ensures a1 == a2 && b1 == b2
  {
    HexOfLayout(a1); HexOfLayout(b1); HexOfLayout(a2); HexOfLayout(b2);
    var n1 := HexOf(a1) + "_" + HexOf(b1) + ".patch";
    var n2 := HexOf(a2) + "_" + HexOf(b2) + ".patch";
    assert n1 == PatchPath(a1, b1)[|PatchCacheFolder| + 1..];
    assert n2 == PatchPath(a2, b2)[|PatchCacheFolder| + 1..];
    assert HexOf(a1) == n1[..16] && HexOf(a2) == n2[..16];
    assert HexOf(b1) == n1[17..33] && HexOf(b2) == n2[17..33];
    HexOfInjective(a1, a2);
    HexOfInjective(b1, b2);
  }

  /** A temporary file is never taken for a cache entry: one ends in ".tmp", the other in ".patch". */
  lemma TempIsNotPatch(guid: string, hashA: Hash64, hashB: Hash64)
    ensures TempPath(guid) != PatchPath(hashA, hashB)
  {
    var t, p := TempPath(guid), PatchPath(hashA, hashB);
    assert t[|t| - 1] == 'p';
    assert p[|p| - 1] == 'h';
  }

  /**
   * `TryGetPatch(foundHash, fileHash)`: the bytes of the cache entry for the
   * pair when it exists (true), `None` otherwise (false with a null patch).
   * It never computes a diff.
   */
  function TryGetPatch(files: map<Path, seq<byte>>, foundHash: Hash64, fileHash: Hash64): (r: Option<seq<byte>>)
    ensures r.Some? <==> PatchPath(foundHash, fileHash) in files
    ensures r.Some? ==> r.value == files[PatchPath(foundHash, fileHash)]
  {
    var patchName := PatchPath(foundHash, fileHash);
    if patchName in files then Some(files[patchName]) else None
  }

  /**
   * Publishing a diff: write it to the temporary file, then rename that file
   * onto the cache entry. The entry ends up holding the bytes stamped `now`,
   * and the temporary file is gone.
   */
  method Publish(fs: FileSystem, tmp: Path, entry: Path, data: seq<byte>, now: u64)
    requires fs.Valid() && tmp != entry
    modifies fs
    ensures fs.Valid() && fs.dirs == old(fs.dirs)
    ensures fs.files == (old(fs.files) - {tmp})[entry := data]
    ensures fs.mtimes == (old(fs.mtimes) - {tmp})[entry := now]
  {
    fs.WriteAllBytes(tmp, data, now);
    fs.Move(tmp, entry);
    assert fs.files == (old(fs.files) - {tmp})[entry := data];
  }

  /**
   * `CreatePatch(a, b, output)`: when the entry for `(hash a, hash b)` exists,
   * its bytes go to `output` and no diff is computed; otherwise the diff is
   * written to a fresh temporary file, renamed onto the entry (so the
   * temporary file is gone), and the loop, finding the entry, copies it to
   * `output`. `diffed` tells whether the diff was computed.
   */
  method CreatePatch(fs: FileSystem, a: seq<byte>, b: seq<byte>, output: OutputStream,
                     hash: seq<byte> -> Hash64, diff: (seq<byte>, seq<byte>) -> seq<byte>,
                     guid: string, now: u64)
    returns (diffed: bool)
    requires fs.Valid()
    modifies fs, output
    ensures fs.Valid() && fs.dirs == old(fs.dirs) + {PatchCacheFolder}
    ensures diffed <==> PatchPath(hash(a), hash(b)) !in old(fs.files)
    ensures !diffed ==> output.written == old(output.written) + old(fs.files)[PatchPath(hash(a), hash(b))]
    ensures !diffed ==> fs.files == old(fs.files) && fs.mtimes == old(fs.mtimes)
    ensures diffed ==> output.written == old(output.written) + diff(a, b)
    ensures diffed ==> fs.files == (old(fs.files) - {TempPath(guid)})[PatchPath(hash(a), hash(b)) := diff(a, b)]
    ensures diffed ==> fs.mtimes == (old(fs.mtimes) - {TempPath(guid)})[PatchPath(hash(a), hash(b)) := now]
    ensures diffed ==> TempPath(guid) !in fs.files && PatchPath(hash(a), hash(b)) in fs.files
    ensures |output.written| >= |old(output.written)|
    ensures TryGetPatch(fs.files, hash(a), hash(b)) == Some(output.written[|old(output.written)|..])
  {
    var dataA := ToHex(hash(a));
    var dataB := ToHex(hash(b));
    var cacheFile := Combine(PatchCacheFolder, dataA + "_" + dataB + ".patch");
    if PatchCacheFolder !in fs.dirs {
      fs.CreateDirectory(PatchCacheFolder);
    }
    TempIsNotPatch(guid, hash(a), hash(b));
    diffed := false;
    while true
      invariant fs.Valid() && fs.dirs == old(fs.dirs) + {PatchCacheFolder}
      invariant output.written == old(output.written)
      invariant cacheFile == PatchPath(hash(a), hash(b))
      invariant diffed ==> cacheFile !in old(fs.files)
      invariant !diffed ==> fs.files == old(fs.files) && fs.mtimes == old(fs.mtimes)
      invariant diffed ==> fs.files == (old(fs.files) - {TempPath(guid)})[cacheFile := diff(a, b)]
      invariant diffed ==> fs.mtimes == (old(fs.mtimes) - {TempPath(guid)})[cacheFile := now]
      decreases if cacheFile in fs.files then 0 else 1
    {
      if cacheFile in fs.files {
        output.WriteAll(fs.files[cacheFile]);
        break;
      } else {
        var tmpName := Combine(PatchCacheFolder, guid + ".tmp");
        Publish(fs, tmpName, cacheFile, diff(a, b), now);
        diffed := true;
      }
    }
    assert output.written[|old(output.written)|..] == fs.files[cacheFile];
  }

  /**
   * Asking twice for the patch of the same contents computes the diff at most
   * once, and both outputs receive the same bytes.
   */
  method CreatePatchTwice(fs: FileSystem, a: seq<byte>, b: seq<byte>, out1: OutputStream, out2: OutputStream,
                          hash: seq<byte> -> Hash64, diff: (seq<byte>, seq<byte>) -> seq<byte>,
                          guid1: string, guid2: string, now: u64)
    returns (diffedAgain: bool)
    requires fs.Valid() && out1 != out2
    modifies fs, out1, out2
    ensures !diffedAgain
    ensures |out1.written| >= |old(out1.written)| && |out2.written| >= |old(out2.written)|
    ensures out1.written[|old(out1.written)|..] == out2.written[|old(out2.written)|..]
  {
    var diffedFirst := CreatePatch(fs, a, b, out1, hash, diff, guid1, now);
    diffedAgain := CreatePatch(fs, a, b, out2, hash, diff, guid2, now);
  }
}
