/**
 * The path helpers of the Utils library as the orchestrator uses them:
 * directory part, file-name part, joining and normalising. They are simple
 * string functions over '/' and '\' separators.
 */
module Paths {
  import opened Wrappers

  predicate IsSep(c: char) {
    c == '/' || c == '\\'
  }

  /** Position of the last path separator, if there is one. */
  function LastSep(p: string): (r: Option<nat>)
    ensures r.Some? ==> r.value < |p| && IsSep(p[r.value])
    ensures r.Some? ==> forall k :: r.value < k < |p| ==> !IsSep(p[k])
    ensures r.None? ==> forall k :: 0 <= k < |p| ==> !IsSep(p[k])
  {
    if p == [] then None
    else if IsSep(p[|p| - 1]) then Some(|p| - 1)
    else LastSep(p[..|p| - 1])
  }

  /**
   * Utils::GetDirNameString: the path up to and including its last
   * separator; a path without a separator comes back unchanged.
   */
  function DirName(p: string): string {
    match LastSep(p)
    case Some(k) => p[..k + 1]
    case None => p
  }

  /** Utils::GetFileNameString: what follows the last separator. */
  function FileName(p: string): (r: string)
    ensures forall k :: 0 <= k < |r| ==> !IsSep(r[k])
    ensures |r| <= |p| && r == p[|p| - |r|..]
  {
    match LastSep(p)
    case Some(k) => p[k + 1..]
    case None => p
  }

  /** A path with a separator is its directory part followed by its file name. */
  lemma DirNameFileName(p: string)
    requires LastSep(p).Some?
    ensures DirName(p) + FileName(p) == p
    ensures DirName(p) != [] && IsSep(DirName(p)[|DirName(p)| - 1])
  {
    var k := LastSep(p).value;
    assert p[..k + 1] + p[k + 1..] == p;
  }

  /** A directory ending in a separator, followed by a name without one, splits back into the two. */
  lemma SplitAfterSep(d: string, n: string)
    requires d != [] && IsSep(d[|d| - 1])
    requires forall k :: 0 <= k < |n| ==> !IsSep(n[k])
    ensures LastSep(d + n) == Some(|d| - 1)
    ensures DirName(d + n) == d && FileName(d + n) == n
  {
    var p := d + n;
    assert IsSep(p[|d| - 1]);
    forall k | |d| <= k < |p|
      ensures !IsSep(p[k])
    {
      assert p[k] == n[k - |d|];
    }
    assert p[..|d|] == d;
    assert p[|d|..] == n;
  }

  /** What Join puts in front of a name for a given directory. */
  function JoinPrefix(dir: string): string {
    if dir == [] || IsSep(dir[|dir| - 1]) then dir else dir + "/"
  }

  /** Utils::MakePathString: the name placed inside the directory. */
  function Join(dir: string, name: string): string {
    JoinPrefix(dir) + name
  }

  /** Two names joined to one directory give one path only if they are the same name. */
  lemma JoinInjective(dir: string, a: string, b: string)
    ensures Join(dir, a) == Join(dir, b) ==> a == b
  {
    var p := JoinPrefix(dir);
    if Join(dir, a) == Join(dir, b) {
      assert a == (p + a)[|p|..];
      assert b == (p + b)[|p|..];
    }
  }

  function NormalChar(c: char): char {
    if c == '\\' then '/' else c
  }

  /** Utils::NormalizePath: every backslash becomes a forward slash. */
  function Normalize(p: string): (r: string)
    ensures |r| == |p|
    ensures forall k :: 0 <= k < |p| ==> r[k] == NormalChar(p[k])
    ensures forall k :: 0 <= k < |r| ==> r[k] != '\\'
  {
    if p == [] then [] else Normalize(p[..|p| - 1]) + [NormalChar(p[|p| - 1])]
  }

  /** A path without backslashes is already normal. */
  lemma NormalizeUnchanged(p: string)
    requires forall k :: 0 <= k < |p| ==> p[k] != '\\'
    ensures Normalize(p) == p
  {
    assert forall k :: 0 <= k < |p| ==> Normalize(p)[k] == p[k];
  }
}
