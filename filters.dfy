/**
 * The environment the search runs against, and the two read-only filters
 * over the configuration: the exclusion test (gts.c:73-80) and the
 * top-level-directory boundary (gts.c:139-151).
 */
module Filters {
  import opened Wrappers
  import opened Text

  /**
   * The filesystem and path library, as data.
   * - `listings[d]`: the names `readdir` yields for directory `d`, in its
   *   order; `d` is absent when `opendir(d)` fails.
   * - `directories`: the paths for which `stat` succeeds with `S_ISDIR`.
   * - `realpath[p]`: the canonical form of `p`; `p` is absent when
   *   `realpath(p)` fails.
   * - `dirname`, `basename`: the `libgen.h` functions, by value.
   */
  datatype Env = Env(
    listings: map<string, seq<string>>,
    directories: set<string>,
    realpath: map<string, string>,
    dirname: string -> string,
    basename: string -> string)

  /** The parsed configuration: top-level roots and exclusion substrings. */
  datatype Config = Config(roots: seq<string>, exclusions: seq<string>)

  /** `snprintf(path, .., "%s/%s", dir, name)` (gts.c:174), without truncation. */
  function Join(dir: string, name: string): (p: string)
    ensures |p| == |dir| + 1 + |name|
    ensures p[..|dir|] == dir && p[|dir|] == '/' && p[|dir| + 1..] == name
  {
    dir + "/" + name
  }

  /** The skip test of gts.c:170: `.`, `..` and every name starting with a dot. */
  predicate IsHidden(name: string) {
    name == "." || name == ".." || (|name| > 0 && name[0] == '.')
  }

  /** `is_excluded` (gts.c:73-80): the first exclusion found as a substring of `name` decides. */
  function IsExcluded(exclusions: seq<string>, name: string): (b: bool)
    ensures b <==> exists i :: 0 <= i < |exclusions| && IsSubstring(exclusions[i], name)
  {
    if |exclusions| == 0 then false
    else if Contains(name, exclusions[0]) then true
    else
      var rest := IsExcluded(exclusions[1..], name);
      assert forall i :: 1 <= i < |exclusions| ==> exclusions[i] == exclusions[1..][i - 1];
      rest
  }

  /** The loop of gts.c:145-149: some root is a prefix of `canonical`. */
  function SomeRootPrefixes(roots: seq<string>, canonical: string): (b: bool)
    ensures b <==> exists i :: 0 <= i < |roots| && HasPrefix(canonical, roots[i])
  {
    if |roots| == 0 then false
    else if HasPrefix(canonical, roots[0]) then true
    else
      var rest := SomeRootPrefixes(roots[1..], canonical);
      assert forall i :: 1 <= i < |roots| ==> roots[i] == roots[1..][i - 1];
      rest
  }

  /** `is_within_top_level_dirs` (gts.c:139-151): false when `realpath` fails,
      otherwise whether some root is a literal prefix of the canonical path. */
  function WithinRoots(env: Env, cfg: Config, path: string): (b: bool)
    ensures path !in env.realpath ==> !b
    ensures path in env.realpath ==>
      (b <==> exists i :: 0 <= i < |cfg.roots| && HasPrefix(env.realpath[path], cfg.roots[i]))
  {
    path in env.realpath && SomeRootPrefixes(cfg.roots, env.realpath[path])
  }

  /** An excluded word excludes every longer name around it
      (`cache` also excludes `mycache2`). */
  lemma ExclusionIsBySubstring(exclusions: seq<string>, word: string, pre: string, post: string)
    requires word in exclusions
    ensures IsExcluded(exclusions, pre + word + post)
  {
    var i :| 0 <= i < |exclusions| && exclusions[i] == word;
    assert OccursAt(word, word, 0);
    SubstringOfExtension(word, word, pre, post);
  }

  /** The boundary is a string prefix, not a path-component prefix: a root
      `/home/user` admits the sibling `/home/user2`. */
  lemma RootPrefixCollision(env: Env, cfg: Config, path: string)
    requires cfg.roots == ["/home/user"]
    requires path in env.realpath && env.realpath[path] == "/home/user2"
    ensures WithinRoots(env, cfg, path)
  {
    assert HasPrefix("/home/user2", "/home/user");
  }
}
