/**
  The lines a directory's walk prints at its own level are exactly its
  sorted, unignored entries, each once, with `└── ` on the last one only;
  the lines of subdirectories all sit deeper.
*/
module Siblings {
  import opened FileSystem
  import opened Ignore
  import opened Permissions
  import opened Render
  import opened Placement

  /** The visits whose path has exactly `depth` components, in order. */
  function AtDepth(visits: seq<Visit>, depth: nat): (r: seq<Visit>)
    ensures |r| <= |visits|
  {
    if visits == [] then []
    else
      var last := visits[|visits| - 1];
      var rest := AtDepth(visits[..|visits| - 1], depth);
      if |last.path| == depth then rest + [last] else rest
  }

  lemma {:induction false} AtDepthAppend(a: seq<Visit>, b: seq<Visit>, depth: nat)
    ensures AtDepth(a + b, depth) == AtDepth(a, depth) + AtDepth(b, depth)
    decreases |b|
  {
    if b != [] {
      var b' := b[..|b| - 1];
      assert (a + b)[..|a + b| - 1] == a + b';
      AtDepthAppend(a, b', depth);
    } else {
      assert a + b == a;
    }
  }

  lemma {:induction false} AtDepthNone(visits: seq<Visit>, depth: nat)
    requires forall v :: v in visits ==> |v.path| != depth
    ensures AtDepth(visits, depth) == []
  {
    if visits != [] {
      assert visits[|visits| - 1] in visits;
      AtDepthNone(visits[..|visits| - 1], depth);
    }
  }

  /** The line printed for the `k`-th of the sorted entries `es`. */
  function EntryLine(es: seq<Node>, k: nat, dir: Path, prefix: Prefix, platform: Platform): Visit
    requires k < |es|
  {
    Visit(dir + [es[k].name], Line(prefix, BranchFor(k == |es| - 1), DisplayOf(es[k], platform)))
  }

  /** The lines of the first `k` of the sorted entries `es`, in order. */
  function EntryLines(es: seq<Node>, k: nat, dir: Path, prefix: Prefix, platform: Platform): (r: seq<Visit>)
    requires k <= |es|
    ensures |r| == k
  {
    if k == 0 then [] else EntryLines(es, k - 1, dir, prefix, platform) + [EntryLine(es, k - 1, dir, prefix, platform)]
  }

  lemma {:induction false} EntryLinesAt(es: seq<Node>, k: nat, dir: Path, prefix: Prefix, platform: Platform, j: nat)
    requires j < k <= |es|
    ensures EntryLines(es, k, dir, prefix, platform)[j] == EntryLine(es, j, dir, prefix, platform)
  {
    if j < k - 1 {
      EntryLinesAt(es, k - 1, dir, prefix, platform, j);
    }
  }

  /** The lines of the first `k` entries, at the walk's own level, are the lines of those entries. */
  lemma {:induction false} EntriesAtOwnLevel(es: seq<Node>, k: nat, parent: Listing, dir: Path, prefix: Prefix,
                                             options: TreeOptions, platform: Platform)
    requires k <= |es|
    requires EntriesOf(es, parent)
    requires WalkEntries(es, k, parent, dir, prefix, options, platform).outcome.Done?
    ensures AtDepth(WalkEntries(es, k, parent, dir, prefix, options, platform).visits, |dir| + 1)
         == EntryLines(es, k, dir, prefix, platform)
    decreases k
  {
    if k > 0 {
      EarlierDone(es, k - 1, k, parent, dir, prefix, options, platform);
      EntriesAtOwnLevel(es, k - 1, parent, dir, prefix, options, platform);
      OwnLevelStep(es, k - 1, parent, dir, prefix, options, platform);
    }
  }

  /** Entry `i` adds its own line, and nothing else, at the walk's own level: its subdirectory's lines all sit deeper. */
  lemma OwnLevelStep(es: seq<Node>, i: nat, parent: Listing, dir: Path, prefix: Prefix,
                     options: TreeOptions, platform: Platform)
    requires i < |es|
    requires EntriesOf(es, parent)
    requires WalkEntries(es, i + 1, parent, dir, prefix, options, platform).outcome.Done?
    requires AtDepth(WalkEntries(es, i, parent, dir, prefix, options, platform).visits, |dir| + 1)
          == EntryLines(es, i, dir, prefix, platform)
    ensures AtDepth(WalkEntries(es, i + 1, parent, dir, prefix, options, platform).visits, |dir| + 1)
         == EntryLines(es, i + 1, dir, prefix, platform)
  {
    var n := es[i];
    EarlierDone(es, i, i + 1, parent, dir, prefix, options, platform);
    assert n.metadataReadable;
    WalkEntriesNext(es, i, parent, dir, prefix, options, platform);
    var before := WalkEntries(es, i, parent, dir, prefix, options, platform).visits;
    var v := EntryLine(es, i, dir, prefix, platform);
    var isLast := i == |es| - 1;
    var path := dir + [n.name];
    AtDepthAppend(before, [v], |dir| + 1);
    assert AtDepth([v], |dir| + 1) == [v] by {
      assert [v][..0] == [];
    }
    if IsDir(n) {
      var sub := WalkListing(n.kind.listing, path, prefix + [IndentFor(isLast)], options, platform);
      WalkPlaced(n.kind.listing, path, prefix + [IndentFor(isLast)], options, platform);
      AtDepthNone(sub.visits, |dir| + 1);
      AtDepthAppend(before + [v], sub.visits, |dir| + 1);
    }
  }

  /**
    A successful walk of a readable directory prints, at its own level,
    one line per sorted unignored entry, in that order, with the last-sibling
    marker on the last line and on no other.
  */
  lemma SiblingLines(items: seq<Item>, dir: Path, prefix: Prefix, options: TreeOptions, platform: Platform)
    requires WalkListing(Entries(items), dir, prefix, options, platform).outcome.Done?
    ensures |AtDepth(WalkListing(Entries(items), dir, prefix, options, platform).visits, |dir| + 1)|
         == |Listed(items, dir, options)|
    ensures forall j :: 0 <= j < |Listed(items, dir, options)| ==>
      AtDepth(WalkListing(Entries(items), dir, prefix, options, platform).visits, |dir| + 1)[j]
        == EntryLine(Listed(items, dir, options), j, dir, prefix, platform)
  {
    var es := Listed(items, dir, options);
    assert WalkListing(Entries(items), dir, prefix, options, platform)
        == WalkEntries(es, |es|, Entries(items), dir, prefix, options, platform);
    EntriesAtOwnLevel(es, |es|, Entries(items), dir, prefix, options, platform);
    forall j | 0 <= j < |es|
      ensures AtDepth(WalkListing(Entries(items), dir, prefix, options, platform).visits, |dir| + 1)[j]
           == EntryLine(es, j, dir, prefix, platform)
    {
      EntryLinesAt(es, |es|, dir, prefix, platform, j);
    }
  }

  /** Among the lines at a walk's own level, only the last carries `└── `. */
  lemma LastMarkerOnlyOnLast(items: seq<Item>, dir: Path, prefix: Prefix, options: TreeOptions, platform: Platform, j: nat)
    requires WalkListing(Entries(items), dir, prefix, options, platform).outcome.Done?
    requires j < |AtDepth(WalkListing(Entries(items), dir, prefix, options, platform).visits, |dir| + 1)|
    ensures var own := AtDepth(WalkListing(Entries(items), dir, prefix, options, platform).visits, |dir| + 1);
      own[j].line.branch == LastBranch <==> j == |own| - 1
  {
    SiblingLines(items, dir, prefix, options, platform);
    var own := AtDepth(WalkListing(Entries(items), dir, prefix, options, platform).visits, |dir| + 1);
    var es := Listed(items, dir, options);
    assert own[j] == EntryLine(es, j, dir, prefix, platform);
  }

  /** A directory with nothing left to show after filtering prints no lines at all. */
  lemma EmptyDirectoryPrintsNothing(items: seq<Item>, dir: Path, prefix: Prefix, options: TreeOptions, platform: Platform)
    requires Listed(items, dir, options) == []
    ensures WalkListing(Entries(items), dir, prefix, options, platform) == Walk([], Done)
  {
  }
}
