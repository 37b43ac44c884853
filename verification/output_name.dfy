/**
  The base name of the two output files: the input path without its last extension,
  found as `strrchr(path, '.')` does and copied with `strncpy`.
 */
module OutputName {
  import opened Wrappers

  /** The index of the last occurrence of `c` in `s`, or None (what `strrchr` finds). */
  function LastIndex(s: string, c: char): (r: Option<nat>)
    ensures r.None? <==> c !in s
    ensures r.Some? ==> r.value < |s| && s[r.value] == c && c !in s[r.value + 1..]
    decreases |s|
  {
    if |s| == 0 then None
    else if s[|s| - 1] == c then Some(|s| - 1)
    else LastIndex(s[..|s| - 1], c)
  }

  /** The output stem: everything before the last '.', or the whole path when it has none. */
  function Stem(path: string): (stem: string)
    ensures stem <= path
    ensures '.' !in path ==> stem == path
    ensures '.' in path ==> |stem| < |path| && path[|stem|] == '.' && '.' !in path[|stem| + 1..]
  {
    match LastIndex(path, '.')
    case None => path
    case Some(i) => path[..i]
  }

  /** A cut point of `path`: either its end (no '.'), or the position of its last '.'. */
  predicate IsStemCut(path: string, k: nat)
  {
    && k <= |path|
    && ('.' !in path ==> k == |path|)
    && ('.' in path ==> k < |path| && path[k] == '.' && '.' !in path[k + 1..])
  }

  /** The stem is the only prefix that ends at a cut point. */
  lemma StemUnique(path: string, k: nat)
    requires IsStemCut(path, k)
    ensures path[..k] == Stem(path)
  {
    var n := |Stem(path)|;
    if '.' in path {
      assert path[n] == '.' && path[k] == '.';
      assert forall j | k < j < |path| :: path[j] == path[k + 1..][j - k - 1];
      assert forall j | n < j < |path| :: path[j] == path[n + 1..][j - n - 1];
    }
  }

  /**
    The last '.' is searched in the whole path, directory part included: when the file
    name itself has no '.', a '.' in a directory name (such as the `.` of `./points`)
    cuts the stem inside the directory part.
   */
  lemma StemMayCutDirectory(dir: string, name: string)
    requires '.' in dir && '.' !in name && '/' !in name
    ensures |Stem(dir + "/" + name)| < |dir|
    ensures Stem(dir + "/" + name) == Stem(dir)
  {
    var path := dir + "/" + name;
    var k := |Stem(dir)|;
    assert path[..|dir|] == dir;
    assert path[k] == dir[k];
    assert path[k + 1..] == dir[k + 1..] + "/" + name;
    assert IsStemCut(path, k);
    StemUnique(path, k);
  }
}
