/**
  Where each printed line sits: the prefix grows by one four-character
  segment per level of depth, the branch marker is one of the two markers,
  the name shown is the entry's own, and no printed entry is ignored or lies
  below an ignored directory.  These hold of every line printed, also when an
  error stops the walk part-way.
*/
module Placement {
  import opened Wrappers
  import opened FileSystem
  import opened Ignore
  import opened Permissions
  import opened Render

  /** What is true of a line printed by the walk of `dir` started with `prefix`. */
  ghost predicate Placed(v: Visit, dir: Path, prefix: Prefix, options: TreeOptions) {
    && |dir| < |v.path| && v.path[..|dir|] == dir
    && |v.line.prefix| == |prefix| + (|v.path| - |dir| - 1)
    && v.line.prefix[..|prefix|] == prefix
    && v.line.branch != NoBranch
    && v.line.display.name == v.path[|v.path| - 1]
    && !ShouldIgnore(v.path, v.line.display.style == DirStyle, options)
    && (forall m :: |dir| < m < |v.path| ==> !ShouldIgnore(v.path[..m], true, options))
  }

  /** A line placed by the walk of a child directory is placed by the walk of its parent. */
  lemma PlacedInParent(v: Visit, dir: Path, prefix: Prefix, n: Node, isLast: bool, options: TreeOptions)
    requires IsDir(n) && !ShouldIgnore(dir + [n.name], true, options)
    requires Placed(v, dir + [n.name], prefix + [IndentFor(isLast)], options)
    ensures Placed(v, dir, prefix, options)
  {
    var child := dir + [n.name];
    var inner := prefix + [IndentFor(isLast)];
    assert v.path[..|dir|] == child[..|dir|] == dir;
    assert v.line.prefix[..|prefix|] == inner[..|prefix|] == prefix;
    forall m | |dir| < m < |v.path| ensures !ShouldIgnore(v.path[..m], true, options) {
      if m == |dir| + 1 {
        assert v.path[..m] == v.path[..|child|] == child;
      }
    }
  }

  /** Every line a directory's walk prints is placed. */
  lemma {:induction false} WalkPlaced(listing: Listing, dir: Path, prefix: Prefix, options: TreeOptions, platform: Platform)
    ensures forall v :: v in WalkListing(listing, dir, prefix, options, platform).visits ==> Placed(v, dir, prefix, options)
    decreases listing, 1
  {
    if listing.Entries? {
      var es := Listed(listing.items, dir, options);
      EntriesPlaced(es, |es|, listing, dir, prefix, options, platform);
    }
  }

  lemma {:induction false} EntriesPlaced(es: seq<Node>, k: nat, parent: Listing, dir: Path, prefix: Prefix,
                                         options: TreeOptions, platform: Platform)
    requires k <= |es|
    requires EntriesOf(es, parent)
    requires forall n :: n in es ==> !ShouldIgnore(dir + [n.name], PathIsDir(n), options)
    ensures forall v :: v in WalkEntries(es, k, parent, dir, prefix, options, platform).visits ==> Placed(v, dir, prefix, options)
    decreases parent, 0, k
  {
    if k > 0 {
      EntriesPlaced(es, k - 1, parent, dir, prefix, options, platform);
      var before := WalkEntries(es, k - 1, parent, dir, prefix, options, platform);
      var n := es[k - 1];
      assert n in es;
      if before.outcome.Done? && n.metadataReadable {
        var isLast := k - 1 == |es| - 1;
        var path := dir + [n.name];
        var v := Visit(path, Line(prefix, BranchFor(isLast), DisplayOf(n, platform)));
        assert path[..|dir|] == dir && v.line.prefix[..|prefix|] == prefix;
        assert Placed(v, dir, prefix, options);
        if IsDir(n) {
          var sub := WalkListing(n.kind.listing, path, prefix + [IndentFor(isLast)], options, platform);
          WalkPlaced(n.kind.listing, path, prefix + [IndentFor(isLast)], options, platform);
          forall w | w in sub.visits ensures Placed(w, dir, prefix, options) {
            PlacedInParent(w, dir, prefix, n, isLast, options);
          }
        }
      }
    }
  }

  /**
    Below the root line, each line's prefix has one segment, four
    characters wide, per level of depth below the root's own entries.
  */
  lemma RootWalkDepth(root: Path, listing: Listing, gitignore: Option<Matcher>, platform: Platform, v: Visit)
    requires v in WalkListing(listing, root, [], TreeOptions(gitignore, root), platform).visits
    ensures root < v.path
    ensures |v.line.prefix| == |v.path| - |root| - 1
    ensures |PrefixText(v.line.prefix)| == 4 * (|v.path| - |root| - 1)
  {
    WalkPlaced(listing, root, [], TreeOptions(gitignore, root), platform);
  }
}
