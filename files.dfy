/**
 * The part of the local filesystem the caches use: file contents, each
 * file's last-write time in whole seconds since the Unix epoch (what
 * `File.GetLastWriteTimeUtc(f).AsUnixTime()` yields), and the set of
 * directories. The clock is a parameter of every write.
 */
module Files {
  import opened Base

  type Path = string

  /** The Windows directory separator `Path.Combine` inserts. */
  const Separator: char := '\\'

  /** `Path.Combine(dir, name)` for a relative `name` and a `dir` without a trailing separator. */
  function Combine(dir: Path, name: Path): (r: Path)
    ensures |r| == |dir| + 1 + |name|
    ensures r[..|dir|] == dir && r[|dir|] == Separator && r[|dir| + 1..] == name
  {
    dir + [Separator] + name
  }

  class FileSystem {
    var files: map<Path, seq<byte>>
    var mtimes: map<Path, u64>
    var dirs: set<Path>

    /** Every file has a last-write time and nothing else does. */
    ghost predicate Valid()
      reads this
    {
      files.Keys == mtimes.Keys
    }

    constructor ()
      ensures Valid() && files == map[] && mtimes == map[] && dirs == {}
    {
      files, mtimes, dirs := map[], map[], {};
    }

    /** `File.Create` followed by writing `data`: creates or overwrites, stamping the time `now`. */
    method WriteAllBytes(path: Path, data: seq<byte>, now: u64)
      requires Valid()
      modifies this
      ensures Valid()
      ensures files == old(files)[path := data]
      ensures mtimes == old(mtimes)[path := now]
      ensures dirs == old(dirs)
    {
      files := files[path := data];
      mtimes := mtimes[path := now];
    }

    /** `File.Move(src, dst, MoveOptions.ReplaceExisting)`: a rename keeps contents and write time. */
    method Move(src: Path, dst: Path)
      requires Valid() && src in files && src != dst
      modifies this
      ensures Valid()
      ensures files == (old(files) - {src})[dst := old(files[src])]
      ensures mtimes == (old(mtimes) - {src})[dst := old(mtimes[src])]
      ensures dirs == old(dirs)
    {
      files := (files - {src})[dst := files[src]];
      mtimes := (mtimes - {src})[dst := mtimes[src]];
    }

    /** `Directory.CreateDirectory(dir)`. */
    method CreateDirectory(dir: Path)
      requires Valid()
      modifies this
      ensures Valid()
      ensures files == old(files) && mtimes == old(mtimes)
      ensures dirs == old(dirs) + {dir}
    {
      dirs := dirs + {dir};
    }
  }
}
