# Wabbajack.Common utilities in Dafny

This project models the core helpers of Wabbajack's common library, from
`Wabbajack.Common/Utils.cs` and `Wabbajack.Common/Extensions/DictionaryExt.cs`:

- hex encoding and decoding (`ToHex`, `FromHex`);
- the on-disk hash cache: a 20-byte `<file>.hash` sidecar holding a version,
  the file's last-write time and its 64-bit hash (`TryGetHashCache`,
  `WriteHashCache`, `FileHashCached`, `FileHashCachedAsync`);
- the binary-patch cache, a flat folder of `<hex a>_<hex b>.patch` files
  (`CreatePatch`, `TryGetPatch`);
- the collection helpers (`DistinctBy`, `ConcatArrays`, `Last`, `ButLast`,
  `GetOrDefault`, `Keep`, `DoIndexed`);
- the path-string helpers (`RelativeTo`, `IsInPath`, `IsUnderneathDirectory`);
- the stream copies (`CopyToWithStatus`, `CopyToLimitAsync`);
- get-or-insert on a dictionary (`DictionaryExt.TryCreate`, both overloads).

The pieces are laid out as follows.

- `base.dfy` holds bytes, integer ranges, `Option`/`Result` and ASCII case mapping.
- `files.dfy` holds an in-memory file system. It is a class with file contents,
  last-write times (Unix seconds) and directories, all updated in place.
- Stream objects are classes over in-memory bytes.
- The dictionary is a class whose `map` field is reassigned.
- The pure helpers are functions with lemmas.
- The loops of the source (`ToHex`, `DistinctBy`, `ConcatArrays`, `DoIndexed`,
  `CopyToWithStatus`, `CopyToLimitAsync`, `CreatePatch`) are methods with loop
  invariants. `ToHex`, `DistinctBy`, `ConcatArrays`, `DoIndexed` and
  `CopyToWithStatus` are proved against a reference function. `CreatePatch`
  is proved against `TryGetPatch` and the file map it leaves behind.
  `CopyToLimitAsync` as written is a step function with lemmas about it; the
  corrected loop states the bytes it copies.
- `TryCreate` has no loop. It is a method on the dictionary class, proved
  against the function `TryCreateSpec`.

The xxHash64 hash and BSDiff are deterministic function parameters (`hash`, `diff`). The clock
(`now`) and the fresh GUID of a temporary file are parameters too. A base64 hash
string is identified with its 8 bytes, since base64 is a bijection on them. The host is
little-endian, as `BinaryWriter` and `BitConverter` are on the platforms the
program targets.

Two points of the code shape the model:

- `FileHash` sets the seed 0x42 on a configuration object it never uses
  (Utils.cs:243). The hash is computed with an unseeded configuration, so
  `hash` here stands for unseeded xxHash64.
- On a failed rename, `CreatePatch` continues the loop without deleting its
  temporary file when the entry already exists (Utils.cs:947-950), so it is
  not safe with concurrent writers. Only the single-caller path, where the
  rename succeeds, is modelled.

The values of `Consts.HashFileExtension` and `Consts.PatchCacheFolder` are
defined in Consts.cs, which is not part of this model. The model uses ".hash"
and "patch_cache" as placeholders. Every property holds for any folder name
and for any non-empty extension.

## Model

| member | source | states |
|---|---|---|
| Hex.ToHex | Wabbajack.Common/Utils.cs:384-389 | the loop's result is the lower-case hex string `HexOf(bytes)`: two digits per byte, high nibble first |
| Hex.HexOfLayout | Wabbajack.Common/Utils.cs:384-389 | the hex string has length 2n, and characters 2i and 2i+1 are the high and low nibble digits of byte i |
| Hex.HexOfIsLowerCase | Wabbajack.Common/Utils.cs:384-389 | every character of the encoding is one of `0-9a-f` |
| Hex.PairValue | Wabbajack.Common/Utils.cs:395 | `Convert.ToByte(pair, 16)`: a leading `-` fails with `ArgumentException`; a leading `+` is skipped and the second digit is the value; two hex digits of either case give 16·high + low; anything else fails with a format error |
| Hex.FromHex | Wabbajack.Common/Utils.cs:391-397 | the empty string decodes to no bytes; a string of odd length fails (the source's `Substring` throws `ArgumentOutOfRange` at the last digit); a pair that `Convert.ToByte` rejects fails with its exception; a successful decode yields half as many bytes as characters |
| Hex.FromHexEdgeCases | Wabbajack.Common/Utils.cs:391-397 | "+a" decodes to the byte 0x0a, "-a" fails with `ArgumentException`, "0x" with a format error, "abc" with `ArgumentOutOfRange`, and "zzc" with a format error (the first bad pair is reported before the odd length) |
| Hex.FromHexSucceedsIff | Wabbajack.Common/Utils.cs:391-397 | decoding succeeds exactly when the length is even and every pair is two hex digits of either case or `+` followed by one hex digit |
| Hex.FromHexToHex | Wabbajack.Common/Utils.cs:384-397 | round trip: decoding the hex of any bytes gives those bytes back |
| Hex.ToHexFromHex | Wabbajack.Common/Utils.cs:384-397 | round trip: re-encoding a decoded string gives the input with each digit lower-cased and each `+` replaced by `0`; for input without `+` that is the input lower-cased |
| Hex.HexOfInjective | Wabbajack.Common/Utils.cs:384-389 | distinct byte strings have distinct hex strings |
| HashCache.DecodeEncode | Wabbajack.Common/Utils.cs:292-301 | reading back a little-endian field of `width` bytes gives the value written, for any value below 256^width |
| HashCache.EncodeDecode | Wabbajack.Common/Utils.cs:272-289 | re-encoding a decoded field gives the same bytes |
| HashCache.RecordLayout | Wabbajack.Common/Utils.cs:292-301 | the sidecar record is 20 bytes: version (4 bytes LE, `01 00 00 00` for version 1), last-write time (8 bytes LE), then the hash's 8 bytes unchanged |
| HashCache.TryGetHashCache | Wabbajack.Common/Utils.cs:272-289 | a miss exactly when the sidecar is absent, is not 20 bytes long, has a version other than 1, or records a time different from the file's last-write time; on a hit the hash is bytes 12..20 |
| HashCache.HashCacheHitIff | Wabbajack.Common/Utils.cs:272-301 | the lookup returns `h` exactly when the sidecar is the record `WriteHashCache` writes for `h` at the file's current last-write time |
| HashCache.SidecarIsAnotherFile | Wabbajack.Common/Utils.cs:274 | the sidecar path is never the file's own path |
| HashCache.LookupAfterWriteHits | Wabbajack.Common/Utils.cs:272-301 | after the record is written, the lookup hits with the hash written |
| HashCache.TouchInvalidates | Wabbajack.Common/Utils.cs:286 | once the file's last-write time changes, the old sidecar no longer hits |
| HashCache.FileHash | Wabbajack.Common/Utils.cs:237-260 | a missing file fails, or yields null when `nullOnIOError`; otherwise the result is the hash of its contents |
| HashCache.WriteHashCache | Wabbajack.Common/Utils.cs:292-301 | only the sidecar changes: it becomes the record of version 1, the file's last-write time and the hash, stamped with the clock |
| HashCache.FileHashCached | Wabbajack.Common/Utils.cs:262-270 | a hit returns the cached hash, does not hash and changes nothing; a miss returns `FileHash` and writes the sidecar only for a non-null hash; after a non-null result the lookup hits with it (`FileHashCachedAsync`, lines 303-311, has the same model) |
| HashCache.FileHashCachedTwice | Wabbajack.Common/Utils.cs:262-270 | a second call after a non-null result returns the same hash without hashing again |
| Streams.CopyToWithStatus | Wabbajack.Common/Utils.cs:335-347 | the whole rest of the input is appended to the output and the input is left at its end; the progress reports are one per 64 KiB chunk, against `maxSize` (or 1 when it is 0) |
| Streams.ProgressReportsCount | Wabbajack.Common/Utils.cs:335-347 | no report for empty input; otherwise k reports with (k-1)·65536 < bytes ≤ k·65536 |
| Streams.ProgressReportsClosedForm | Wabbajack.Common/Utils.cs:335-347 | report i carries the running total after i+1 chunks of 64 KiB, capped at the bytes copied |
| Streams.CopyChunk | Wabbajack.Common/Utils.cs:342-345 | one pass of the loop: min(buffer size, bytes left) bytes are read and the same bytes are appended to the output |
| Streams.ProgressReportsIncrease | Wabbajack.Common/Utils.cs:335-347 | reported totals increase strictly, stay within the bytes copied, and the last equals the total copied |
| Streams.LimitStep | Wabbajack.Common/Utils.cs:1277-1283 | one iteration of the loop as written: no byte is lost or duplicated between input and output, `limit` drops by the bytes read (at most 1024) and never below 0, and it stays put exactly when the input is exhausted |
| Streams.CopyToLimitAsWrittenNeverExits | Wabbajack.Common/Utils.cs:1274-1285 | in the loop as written, when fewer bytes remain than `limit`, `limit` stays positive after any number of iterations, so the loop never ends |
| Streams.CopyToLimitAsWrittenWithEnoughInput | Wabbajack.Common/Utils.cs:1274-1285 | in the loop as written, with at least `limit` bytes left, the loop ends with exactly the first `limit` bytes copied |
| Streams.CopyToLimit | Wabbajack.Common/Utils.cs:1274-1285 | corrected loop: copies exactly min(limit, bytes left) bytes, none when `limit <= 0`, and the input advances by that much |
| PatchCache.PatchPathInjective | Wabbajack.Common/Utils.cs:917-921 | distinct pairs of hashes never share a cache file name |
| PatchCache.TempIsNotPatch | Wabbajack.Common/Utils.cs:934 | a temporary file name is never a cache entry's name |
| PatchCache.TryGetPatch | Wabbajack.Common/Utils.cs:962-974 | true with the entry's bytes exactly when the entry for the pair exists, otherwise false; it never computes a diff |
| PatchCache.Publish | Wabbajack.Common/Utils.cs:934-945 | writing the diff to the temporary file and renaming it onto the entry leaves the entry holding the diff, stamped with the clock, and removes the temporary file |
| PatchCache.CreatePatch | Wabbajack.Common/Utils.cs:917-960 | an existing entry is copied to the output without diffing, and the files and their times are unchanged; otherwise the diff is published under the entry's name with the clock's time, the temporary file is gone and the diff is copied out; afterwards `TryGetPatch` returns exactly the bytes written |
| PatchCache.CreatePatchTwice | Wabbajack.Common/Utils.cs:917-960 | a second request for the same pair never diffs and writes the same bytes as the first |
| Collections.DistinctBy | Wabbajack.Common/Utils.cs:877-887 | the loop keeps the elements whose key was not seen before, in order (reference `Distinct`) |
| Collections.DistinctKeysUnique | Wabbajack.Common/Utils.cs:877-887 | no two kept elements share a key |
| Collections.DistinctSameKeys | Wabbajack.Common/Utils.cs:877-887 | the kept elements cover every key of the input |
| Collections.DistinctIsFirstOccurrences | Wabbajack.Common/Utils.cs:877-887 | the kept elements are exactly the first occurrences of each key, at increasing input positions |
| Collections.ConcatArrays | Wabbajack.Common/Utils.cs:993-1003 | the output array has the total length and holds the inputs back to back, in order |
| Collections.FlattenLength | Wabbajack.Common/Utils.cs:993-1003 | the concatenation's length is the sum of the lengths |
| Collections.FlattenAppend | Wabbajack.Common/Utils.cs:993-1003 | concatenating two lists of arrays is concatenating their concatenations |
| Collections.Last | Wabbajack.Common/Utils.cs:889-894 | an empty array fails with `InvalidDataException`; otherwise the last element |
| Collections.ButLast | Wabbajack.Common/Utils.cs:987-991 | all elements but the last, in order; empty input gives empty output |
| Collections.ButLastLast | Wabbajack.Common/Utils.cs:889-894 | for non-empty input, `ButLast` followed by `Last` gives the input back |
| Collections.GetOrDefault | Wabbajack.Common/Utils.cs:896-900 | the stored value when the key is present, the default otherwise (the `Dictionary` overload at lines 982-985 is the same) |
| Collections.Keep | Wabbajack.Common/Utils.cs:656-659 | no default value survives and the output is no longer than the input |
| Collections.KeepMembership | Wabbajack.Common/Utils.cs:656-659 | a value is kept exactly when it is not the default and is the image of some input |
| Collections.KeepAppend | Wabbajack.Common/Utils.cs:656-659 | `Keep` distributes over concatenation, so input order is preserved |
| Collections.DoIndexed | Wabbajack.Common/Utils.cs:433-441 | the action is called once per element, in order, with the element's index |
| Paths.TrimEnd | Wabbajack.Common/Utils.cs:1269-1272 | the result is a prefix of the input that does not end with the character, and only copies of it were removed |
| Paths.IsInPath | Wabbajack.Common/Utils.cs:1269-1272 | true exactly when the normalised parent is a proper prefix of the normalised path followed there by a backslash; then the path is at least two characters longer, so a non-empty name follows the separator |
| Paths.NotInItself | Wabbajack.Common/Utils.cs:1269-1272 | no path is in itself or in anything that normalises to the same string |
| Paths.IsInPathAsymmetric | Wabbajack.Common/Utils.cs:1269-1272 | if a is in b, b is not in a |
| Paths.IsInPathTransitive | Wabbajack.Common/Utils.cs:1269-1272 | a path in a path in c is in c |
| Paths.ChildIsInPath | Wabbajack.Common/Utils.cs:1269-1272 | `parent\name` is in `parent` for any non-empty name not ending in a backslash |
| Paths.IsUnderneathDirectory | Wabbajack.Common/Utils.cs:1187-1190 | true exactly when `dirPath` is no longer than `path` and the start of `path` equals `dirPath` once both are lower-cased |
| Paths.UnderneathIsNotInPath | Wabbajack.Common/Utils.cs:1187-1190 | a directory is underneath itself but not in itself, and `C:\Mods\foobar` is underneath `C:\Mods\foo` but not in it |
| Paths.IsInPathIsUnderneath | Wabbajack.Common/Utils.cs:1187-1190 | a path in a parent without trailing backslashes is underneath it |
| Paths.RelativeTo | Wabbajack.Common/Utils.cs:593-596 | fails with `ArgumentOutOfRange` exactly when the file is shorter than the folder plus one character; otherwise the tail after them |
| Paths.RelativeToJoin | Wabbajack.Common/Utils.cs:593-596 | undoes joining folder, one separator character and name, whatever that character is |
| Paths.RelativeToOfIsInPath | Wabbajack.Common/Utils.cs:593-596 | for normalised paths, folder + `\` + the relative part gives the file back |
| DictionaryExt.TryCreateSpec | Wabbajack.Common/Extensions/DictionaryExt.cs:14-20 | afterwards the key is present and mapped to the returned value; an existing entry is returned with the map unchanged; otherwise the created value is stored; no other key changes |
| DictionaryExt.TryCreateGrowsByAtMostOne | Wabbajack.Common/Extensions/DictionaryExt.cs:14-20 | the dictionary grows by one entry exactly when the key was absent |
| DictionaryExt.TryCreateIdempotent | Wabbajack.Common/Extensions/DictionaryExt.cs:14-20 | a second call with the same key is a pure lookup returning the first value |
| DictionaryExt.TryCreateThenGetOrDefault | Wabbajack.Common/Extensions/DictionaryExt.cs:14-20 | after `TryCreate`, `GetOrDefault` finds the value returned |
| DictionaryExt.TryCreate | Wabbajack.Common/Extensions/DictionaryExt.cs:14-20 | `create` is called exactly when the key is absent, and the new dictionary and result are those of `TryCreateSpec` |
| DictionaryExt.TryCreateNew | Wabbajack.Common/Extensions/DictionaryExt.cs:8-12 | an existing value is returned unchanged; otherwise a new value is stored under the key and returned |
| DictionaryExt.TryCreateTwice | Wabbajack.Common/Extensions/DictionaryExt.cs:14-20 | two calls with the same key return the same value and the second never calls `create` |

## Left out

- The `xxHash64` hash, base64 and `BSDiff` are not modelled. They are function parameters.
- The async variants share their models with the synchronous ones: `FileHashCachedAsync` with `FileHashCached`, and `CopyToLimitAsync` with `CopyToLimit`.
- `await`, `Task` scheduling, concurrency and the `Task.Delay` retry loop of `CreatePatch`'s rename are not modelled. The model has a single caller, so the rename succeeds at once.
- IO errors other than a missing file, and exceptions thrown inside `BSDiff` or the streams, are not modelled.
- HashCache.FileHashCached: a file that is missing when its sidecar is looked up counts as a cache miss. The source's `GetLastWriteTimeUtc` returns a fixed 1601 date for a missing file and compares against it.
- Streams.CopyToWithStatus: the `Status`/`Percent` logging is not emitted. The reports are returned as values, and the division inside `Percent.FactoryPutInRange` (floating point) is left out.
- Streams.InputStream.Read: models `MemoryStream` semantics, where a read returns all the bytes asked for or all that remain. The source's `CopyToWithStatus` keeps reading until a read returns 0, so it also works with shorter reads. The model does not cover those.
- Paths.IsInPath: `ToLower` is ASCII-only case mapping, and `StartsWith` is ordinal. The source uses the current culture for both.
- Paths.IsUnderneathDirectory: `OrdinalIgnoreCase` is modelled as ASCII upper-casing.
- Collections.Keep: `CompareTo(default) != 0` is modelled as inequality to the default value, passed in as `zero`.
- Collections.DistinctBy: the model returns a finished sequence, whereas the source yields lazily.
- Collections.ConcatArrays: 32-bit overflow of the total length is not modelled, and neither is `DoIndexed`'s `int` counter overflow.
- Collections.GetOrDefault: the type's `default` is given as a parameter.
- Collections.Last: a null array is not modelled.
- DictionaryExt.TryCreateNew: `new V()` is an arbitrary value of `V`, because constructors are not modelled.
- Files.FileSystem.Move: requires distinct paths and an existing source. Failures of the move and `MoveOptions` other than replace are not modelled.
- Utils.cs helpers outside this core are not part of this model: `PMap`, `PDoIndexed`, the work queue, serialisers, floating-point and `DateTime` helpers, process, registry and system helpers, `IsFilePathValid` and `IsDirectoryPathValid`.

## Findings

| source | as written | input that shows it | evidently intended | confidence | as-written member | corrected member |
|---|---|---|---|---|---|---|
| Wabbajack.Common/Utils.cs:1274-1285 | `while (limit > 0)` keeps reading after a read returns 0, so it never leaves the loop when the stream holds fewer than `limit` bytes | an empty input stream with `limit` = 1 | stop at the end of the input, having copied min(limit, bytes available) | medium, not executed | Streams.CopyToLimitAsWrittenNeverExits | Streams.CopyToLimit |
