/** The scope of a run started in a sub-directory of the work tree: the
    index-path prefix of the working directory (src/main only; the older
    version always works on the whole index). */
module Scope {
  import opened FileTree

  /** `String.endsWith`. */
  predicate EndsWith(s: string, suffix: string)
  {
    |suffix| <= |s| && s[|s| - |suffix|..] == suffix
  }

  /** The work tree path with a trailing `/.` removed: the repository was
      found in the working directory itself, as `<cwd>/./.git`. */
  function StripCurrentDir(path: string): (r: string)
    ensures EndsWith(path, "/.") ==> r + "/." == path
    ensures !EndsWith(path, "/.") ==> r == path
  {
    if EndsWith(path, "/.") then path[..|path| - 2] else path
  }

  /** The prefix of the index paths below the working directory `cwdPath`.
      None stands for the StringIndexOutOfBoundsException that `substring`
      throws when the working directory is shorter than the work tree path
      plus one separator. Nothing checks that the working directory lies
      inside the work tree: the prefix is whatever follows the first
      `|work tree path| + 1` characters. */
  function ScopePrefix(workTreePath: string, cwdPath: string): (r: Option<string>)
    ensures r.None? <==> cwdPath != StripCurrentDir(workTreePath) && |cwdPath| <= |StripCurrentDir(workTreePath)|
    ensures cwdPath == StripCurrentDir(workTreePath) ==> r == Some("")
    ensures r.Some? && cwdPath != StripCurrentDir(workTreePath) ==>
      EndsWith(cwdPath, r.value) && |r.value| == |cwdPath| - |StripCurrentDir(workTreePath)| - 1
  {
    var absolutePath := StripCurrentDir(workTreePath);
    if cwdPath == absolutePath then Some("")
    else if |cwdPath| < |absolutePath| + 1 then None
    else Some(cwdPath[|absolutePath| + 1..])
  }

  /** Run from a sub-directory `sub` of the work tree (however the work tree
      path was spelled), the prefix is `sub`. */
  lemma PrefixOfSubdirectory(workTreePath: string, sub: string)
    ensures ScopePrefix(workTreePath, StripCurrentDir(workTreePath) + "/" + sub) == Some(sub)
  {
    var base := StripCurrentDir(workTreePath);
    var cwd := base + "/" + sub;
    assert |cwd| == |base| + 1 + |sub|;
    assert cwd[|base| + 1..] == sub;
  }

  /** Run from the work tree itself, found as `<cwd>/./.git`, the prefix is
      empty. */
  lemma PrefixAtWorkTreeRoot(cwdPath: string)
    ensures ScopePrefix(cwdPath + "/.", cwdPath) == Some("")
  {
    assert EndsWith(cwdPath + "/.", "/.");
    assert (cwdPath + "/.")[..|cwdPath|] == cwdPath;
  }

  /** `entry.startsWith(prefix)`: a raw string test. */
  predicate InScope(entry: string, prefix: string)
    ensures prefix == "" ==> InScope(entry, prefix)
    ensures InScope(entry, prefix) <==> |prefix| <= |entry| && entry[..|prefix|] == prefix
  {
    prefix <= entry
  }

  /** An empty prefix admits every entry; a non-empty one admits entries of
      its own directory and, since no component boundary is checked, also
      entries of sibling directories whose names merely begin with it. */
  lemma ScopeIsRawPrefix(prefix: string, rest: string)
    ensures InScope(rest, "")
    ensures InScope(prefix + "/" + rest, prefix)
    ensures InScope(prefix + rest, prefix)
  {
    assert (prefix + "/" + rest)[..|prefix|] == prefix;
    assert (prefix + rest)[..|prefix|] == prefix;
  }
}
