/**
 * The path-string helpers of Utils.cs. Paths are Windows paths with `\` as
 * separator, compared as strings; nothing here touches the filesystem.
 */
module Paths {
  import opened Base

  const Backslash: char := '\\'

  /** `s.TrimEnd(c)`: the longest prefix of `s` that does not end with `c`. */
  function TrimEnd(s: string, c: char): (r: string)
    ensures r <= s
    ensures r == [] || r[|r| - 1] != c
    ensures forall i :: |r| <= i < |s| ==> s[i] == c
  {
    if s != [] && s[|s| - 1] == c then TrimEnd(s[..|s| - 1], c) else s
  }

  /** Ordinal `s.StartsWith(prefix)`. */
  predicate StartsWith(s: string, prefix: string)
  {
    |prefix| <= |s| && s[..|prefix|] == prefix
  }

  /** The form `IsInPath` compares: lower-cased, trailing backslashes removed. */
  function Normal(p: string): string
  {
    TrimEnd(Lower(p), Backslash)
  }

  /**
   * `IsInPath(path, parent)`: the normalised `path` starts with the
   * normalised `parent` followed by a backslash.
   */
  function IsInPath(path: string, parent: string): (r: bool)
    ensures r <==> var np, npath := Normal(parent), Normal(path);
      && |np| < |npath| && npath[|np|] == Backslash
      && forall i :: 0 <= i < |np| ==> npath[i] == np[i]
    ensures r ==> |Normal(parent)| + 1 < |Normal(path)|
  {
    StartsWith(Normal(path), Normal(parent) + [Backslash])
  }

  /** No path is in itself, nor in anything that normalises to the same string (`c:\a\` in `C:\A`). */
  lemma NotInItself(path: string, parent: string)
    requires Normal(path) == Normal(parent)
    ensures !IsInPath(path, parent)
  {
  }

  /** Being in a path is asymmetric. */
  lemma IsInPathAsymmetric(a: string, b: string)
    requires IsInPath(a, b)
    ensures !IsInPath(b, a)
  {
  }

  /** A path inside a path inside `c` is inside `c`. */
  lemma IsInPathTransitive(a: string, b: string, c: string)
    requires IsInPath(a, b) && IsInPath(b, c)
    ensures IsInPath(a, c)
  {
    var na, nb, nc := Normal(a), Normal(b), Normal(c);
    assert nb[..|nc| + 1] == nc + [Backslash];
    assert na[..|nb|] == nb;
    assert na[..|nc| + 1] == nb[..|nc| + 1];
  }

  /** `parent\name` is in `parent` for any non-empty `name` that does not end with a backslash. */
  lemma ChildIsInPath(parent: string, name: string)
    requires name != [] && name[|name| - 1] != Backslash
    ensures IsInPath(parent + [Backslash] + name, parent)
  {
    var p := parent + [Backslash] + name;
    var lp, lparent := Lower(p), Lower(parent);
    assert lp == lparent + [Backslash] + Lower(name) by {
      LowerAppend(parent + [Backslash], name);
      LowerAppend(parent, [Backslash]);
    }
    assert Normal(p) == lp by {
      assert lp[|lp| - 1] == LowerChar(name[|name| - 1]);
    }
    var np := Normal(parent);
    assert np <= lparent;
    assert lp[..|np| + 1] == np + [Backslash] by {
      assert lp[..|np|] == lparent[..|np|];
      assert lp[|np|] == Backslash;
    }
  }

  lemma LowerAppend(a: string, b: string)
    ensures Lower(a + b) == Lower(a) + Lower(b)
  {
  }

  /**
   * `IsUnderneathDirectory(path, dirPath)`: `path` starts with `dirPath`,
   * compared ordinally ignoring case.
   */
  function IsUnderneathDirectory(path: string, dirPath: string): (r: bool)
    ensures r <==> |dirPath| <= |path| && Lower(path[..|dirPath|]) == Lower(dirPath)
  {
    |dirPath| <= |path| && forall i :: 0 <= i < |dirPath| ==> UpperChar(path[i]) == UpperChar(dirPath[i])
  }

  /**
   * The two tests differ: a directory is underneath itself but not in itself,
   * and a sibling sharing a name prefix is underneath but not in.
   */
  lemma UnderneathIsNotInPath(p: string)
    ensures IsUnderneathDirectory(p, p) && !IsInPath(p, p)
    ensures IsUnderneathDirectory("C:\\Mods\\foobar", "C:\\Mods\\foo")
    ensures !IsInPath("C:\\Mods\\foobar", "C:\\Mods\\foo")
  {
    var nf := Normal("C:\\Mods\\foo");
    assert Normal("C:\\Mods\\foobar")[|nf|] == 'b';
  }

  /** Whatever is in a parent without trailing backslashes is underneath it. */
  lemma IsInPathIsUnderneath(path: string, parent: string)
    requires IsInPath(path, parent)
    requires parent == [] || parent[|parent| - 1] != Backslash
    ensures IsUnderneathDirectory(path, parent)
  {
    assert Normal(parent) == Lower(parent);
    forall i | 0 <= i < |parent| ensures UpperChar(path[i]) == UpperChar(parent[i]) {
      assert Normal(path)[i] == Lower(parent)[i];
      assert Normal(path)[i] == Lower(path)[i];
      UpperEqIffLowerEq(path[i], parent[i]);
    }
  }

  /** `RelativeTo(file, folder)`: `file` without its first `|folder| + 1` characters; shorter files throw. */
  function RelativeTo(file: string, folder: string): (r: Result<string>)
    ensures r.Failure? <==> |file| < |folder| + 1
    ensures r.Failure? ==> r.error == ArgumentOutOfRange
    ensures r.Success? ==> |r.value| == |file| - |folder| - 1 && file[|folder| + 1..] == r.value
  {
    if |folder| + 1 > |file| then Failure(ArgumentOutOfRange) else Success(file[|folder| + 1..])
  }

  /**
   * `RelativeTo` undoes joining a folder, a separator and a name. It checks
   * neither the folder nor the separator: any character in that place is dropped.
   */
  lemma RelativeToJoin(folder: string, sep: char, name: string)
    ensures RelativeTo(folder + [sep] + name, folder) == Success(name)
  {
    assert (folder + [sep] + name)[|folder| + 1..] == name;
  }

  /** For normalised paths, the folder, a backslash and the relative part give the path back. */
  lemma RelativeToOfIsInPath(file: string, folder: string)
    requires IsInPath(file, folder)
    requires Normal(file) == file && Normal(folder) == folder
    ensures RelativeTo(file, folder).Success?
    ensures folder + [Backslash] + RelativeTo(file, folder).value == file
  {
    assert file[..|folder| + 1] == folder + [Backslash];
    assert file == file[..|folder| + 1] + file[|folder| + 1..];
  }
}
