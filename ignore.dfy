/**
  The ignore query the walker puts to the compiled gitignore rules.  The
  rules themselves (their globs, negations and anchoring) are not modelled:
  the matcher is any total predicate over a root-relative path and a
  directory flag.
*/
module Ignore {
  import opened Wrappers
  import opened FileSystem

  /** `Gitignore::matched(relative, is_dir).is_ignore()`. */
  type Matcher = (Path, bool) -> bool

  /** The walker's read-only context: the optional matcher and the canonical root. */
  datatype TreeOptions = TreeOptions(gitignore: Option<Matcher>, rootPath: Path)

  /** `Path::strip_prefix`: the components after `base`, when `base` is a leading part of `path`. */
  function StripPrefix(path: Path, base: Path): (r: Option<Path>)
    ensures r.Some? <==> base <= path
    ensures r.Some? ==> path == base + r.value
  {
    if base <= path then Some(path[|base|..]) else None
  }

  /** Whether the entry at `path` is dropped from the listing. */
  function ShouldIgnore(path: Path, isDir: bool, options: TreeOptions): bool {
    match options.gitignore
    case None => false
    case Some(matched) =>
      match StripPrefix(path, options.rootPath)
      case None => false
      case Some(relative) => matched(relative, isDir)
  }

  lemma StripPrefixOfJoin(base: Path, relative: Path)
    ensures StripPrefix(base + relative, base) == Some(relative)
  {
    assert (base + relative)[|base|..] == relative;
  }

  /** Without a matcher nothing is ignored. */
  lemma NoMatcherIgnoresNothing(path: Path, isDir: bool, root: Path)
    ensures !ShouldIgnore(path, isDir, TreeOptions(None, root))
  {
  }

  /** A path that is not below the root is never ignored. */
  lemma OutsideRootNotIgnored(path: Path, isDir: bool, options: TreeOptions)
    requires !(options.rootPath <= path)
    ensures !ShouldIgnore(path, isDir, options)
  {
  }

  /** Below the root, the matcher decides on the root-relative path and the directory flag. */
  lemma BelowRootAsksMatcher(relative: Path, isDir: bool, matched: Matcher, root: Path)
    ensures ShouldIgnore(root + relative, isDir, TreeOptions(Some(matched), root)) == matched(relative, isDir)
  {
    StripPrefixOfJoin(root, relative);
  }
}
