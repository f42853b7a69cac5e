/**
  Which entries a walk shows, and when it succeeds, stated without the
  sort or the print order: a successful walk prints each present,
  unignored entry below the directory exactly once (directories only when
  they are not ignored themselves), and a walk succeeds exactly when every
  listing and every metadata query it needs succeeds.
*/
module Reach {
  import opened Wrappers
  import opened FileSystem
  import opened Ignore
  import opened Permissions
  import opened Ordering
  import opened Render

  /** The paths below `dir` that should be printed, counted with multiplicity. */
  ghost function Reachable(listing: Listing, dir: Path, options: TreeOptions): multiset<Path>
    decreases listing, 1
  {
    match listing
    case Unreadable => multiset{}
    case Entries(items) => ReachableAmong(listing, |items|, dir, options)
  }

  /** What the first `k` items of `listing` contribute. */
  ghost function ReachableAmong(listing: Listing, k: nat, dir: Path, options: TreeOptions): multiset<Path>
    requires listing.Entries? && k <= |listing.items|
    decreases listing, 0, k
  {
    if k == 0 then multiset{}
    else
      ReachableAmong(listing, k - 1, dir, options)
      + match listing.items[k - 1]
        case Vanished => multiset{}
        case Present(n) => Shown(n, dir, options)
  }

  /** An entry of `dir` contributes itself and, for a directory, what it contains, unless it is ignored. */
  ghost function Shown(n: Node, dir: Path, options: TreeOptions): multiset<Path>
    decreases n
  {
    var path := dir + [n.name];
    if ShouldIgnore(path, PathIsDir(n), options) then multiset{}
    else multiset{path} + if IsDir(n) then Reachable(n.kind.listing, path, options) else multiset{}
  }

  /** A walk needs every listing it opens and the metadata of every entry it prints. */
  ghost predicate Healthy(listing: Listing, dir: Path, options: TreeOptions)
    decreases listing, 1
  {
    listing.Entries? && HealthyAmong(listing, |listing.items|, dir, options)
  }

  ghost predicate HealthyAmong(listing: Listing, k: nat, dir: Path, options: TreeOptions)
    requires listing.Entries? && k <= |listing.items|
    decreases listing, 0, k
  {
    k == 0 ||
    (HealthyAmong(listing, k - 1, dir, options) &&
     match listing.items[k - 1]
     case Vanished => true
     case Present(n) => EntryHealthy(n, dir, options))
  }

  /** An ignored entry needs nothing; any other needs its metadata and, for a directory, a healthy walk. */
  ghost predicate EntryHealthy(n: Node, dir: Path, options: TreeOptions)
    decreases n
  {
    var path := dir + [n.name];
    ShouldIgnore(path, PathIsDir(n), options) ||
    (n.metadataReadable && (IsDir(n) ==> Healthy(n.kind.listing, path, options)))
  }

  // ---- sums over a sequence of entries ----

  ghost function ShownAll(es: seq<Node>, dir: Path, options: TreeOptions): multiset<Path> {
    if es == [] then multiset{} else ShownAll(es[..|es| - 1], dir, options) + Shown(es[|es| - 1], dir, options)
  }

  /** What the first `k` entries of `es` show. */
  ghost function ShownFirst(es: seq<Node>, k: nat, dir: Path, options: TreeOptions): multiset<Path>
    requires k <= |es|
  {
    if k == 0 then multiset{} else ShownFirst(es, k - 1, dir, options) + Shown(es[k - 1], dir, options)
  }

  lemma {:induction false} ShownFirstAll(es: seq<Node>, k: nat, dir: Path, options: TreeOptions)
    requires k <= |es|
    ensures ShownFirst(es, k, dir, options) == ShownAll(es[..k], dir, options)
  {
    if k > 0 {
      ShownFirstAll(es, k - 1, dir, options);
      var init := es[..k];
      assert init[..|init| - 1] == es[..k - 1] && init[|init| - 1] == es[k - 1];
    }
  }

  lemma {:induction false} ShownAllAppend(a: seq<Node>, b: seq<Node>, dir: Path, options: TreeOptions)
    ensures ShownAll(a + b, dir, options) == ShownAll(a, dir, options) + ShownAll(b, dir, options)
    decreases |b|
  {
    if b == [] {
      assert a + b == a;
    } else {
      assert (a + b)[..|a + b| - 1] == a + b[..|b| - 1];
      ShownAllAppend(a, b[..|b| - 1], dir, options);
    }
  }

  /** The sum does not depend on the order of the entries. */
  lemma {:induction false} ShownAllPermutation(a: seq<Node>, b: seq<Node>, dir: Path, options: TreeOptions)
    requires multiset(a) == multiset(b)
    ensures ShownAll(a, dir, options) == ShownAll(b, dir, options)
    decreases |a|
  {
    if a == [] {
      assert |b| == |multiset(b)| == 0;
    } else {
      var last := a[|a| - 1];
      var init := a[..|a| - 1];
      assert last in multiset(b);
      var i :| 0 <= i < |b| && b[i] == last;
      RemoveMatching(a, b, i);
      ShownAllPermutation(init, b[..i] + b[i + 1..], dir, options);
      ShownAllWithout(b, i, dir, options);
    }
  }

  /** The sum is the sum without element `i` plus what element `i` shows. */
  lemma ShownAllWithout(b: seq<Node>, i: nat, dir: Path, options: TreeOptions)
    requires i < |b|
    ensures ShownAll(b, dir, options) == ShownAll(b[..i] + b[i + 1..], dir, options) + Shown(b[i], dir, options)
  {
    assert b == b[..i] + [b[i]] + b[i + 1..];
    ShownAllAppend(b[..i] + [b[i]], b[i + 1..], dir, options);
    ShownAllAppend(b[..i], [b[i]], dir, options);
    ShownAllAppend(b[..i], b[i + 1..], dir, options);
    assert [b[i]][..0] == [];
  }

  /** Taking the last element off `a` and a matching one off `b` keeps them permutations of each other. */
  lemma RemoveMatching<T>(a: seq<T>, b: seq<T>, i: nat)
    requires multiset(a) == multiset(b) && a != [] && i < |b| && b[i] == a[|a| - 1]
    ensures multiset(a[..|a| - 1]) == multiset(b[..i] + b[i + 1..])
  {
    var init, last, rest := a[..|a| - 1], a[|a| - 1], b[..i] + b[i + 1..];
    assert a == init + [last];
    assert b == b[..i] + [last] + b[i + 1..];
    assert multiset(a) == multiset(init) + multiset{last};
    assert multiset(b) == multiset(b[..i] + [last]) + multiset(b[i + 1..])
                       == multiset(b[..i]) + multiset{last} + multiset(b[i + 1..]);
    assert multiset(rest) == multiset(b[..i]) + multiset(b[i + 1..]);
    forall x | true
      ensures multiset(init)[x] == multiset(rest)[x]
    {
      assert (multiset(init) + multiset{last})[x] == (multiset(rest) + multiset{last})[x];
    }
  }

  /** Dropping the ignored entries drops nothing from the sum. */
  lemma {:induction false} ShownAllKept(es: seq<Node>, dir: Path, options: TreeOptions)
    ensures ShownAll(Kept(es, dir, options), dir, options) == ShownAll(es, dir, options)
  {
    if es != [] {
      var n := es[|es| - 1];
      ShownAllKept(es[..|es| - 1], dir, options);
      if !ShouldIgnore(dir + [n.name], PathIsDir(n), options) {
        var rest := Kept(es[..|es| - 1], dir, options);
        assert (rest + [n])[..|rest + [n]| - 1] == rest;
      }
    }
  }

  /** Summing over the readable entries of the first `k` items is what those items contribute. */
  lemma {:induction false} ShownAllReadable(listing: Listing, k: nat, dir: Path, options: TreeOptions)
    requires listing.Entries? && k <= |listing.items|
    ensures ShownAll(ReadableEntries(listing.items[..k]), dir, options) == ReachableAmong(listing, k, dir, options)
  {
    if k > 0 {
      var items := listing.items[..k];
      assert items[..k - 1] == listing.items[..k - 1];
      ShownAllReadable(listing, k - 1, dir, options);
      var rest := ReadableEntries(items[..k - 1]);
      if items[k - 1].Present? {
        assert (rest + [items[k - 1].node])[..|rest|] == rest;
      }
    }
  }

  /** What a listing shows is the sum over the entries the walk prints, in any order. */
  lemma ReachableIsListed(items: seq<Item>, dir: Path, options: TreeOptions)
    ensures Reachable(Entries(items), dir, options) == ShownAll(Listed(items, dir, options), dir, options)
  {
    var readable := ReadableEntries(items);
    ShownAllReadable(Entries(items), |items|, dir, options);
    assert items[..|items|] == items;
    ShownAllKept(readable, dir, options);
    SortEntriesPermutation(Kept(readable, dir, options));
    ShownAllPermutation(SortEntries(Kept(readable, dir, options)), Kept(readable, dir, options), dir, options);
  }

  // ---- the walk against these definitions ----

  lemma PathsAppend(a: seq<Visit>, b: seq<Visit>)
    ensures Paths(a + b) == Paths(a) + Paths(b)
  {
  }

  /** A successful walk prints exactly the reachable paths, each as often as it is reachable. */
  lemma {:induction false} WalkPrintsReachable(listing: Listing, dir: Path, prefix: Prefix, options: TreeOptions, platform: Platform)
    requires WalkListing(listing, dir, prefix, options, platform).outcome.Done?
    ensures multiset(Paths(WalkListing(listing, dir, prefix, options, platform).visits)) == Reachable(listing, dir, options)
    decreases listing, 1
  {
    var es := Listed(listing.items, dir, options);
    EntriesPrintShown(es, |es|, listing, dir, prefix, options, platform);
    ShownFirstAll(es, |es|, dir, options);
    assert es[..|es|] == es;
    ReachableIsListed(listing.items, dir, options);
  }

  lemma {:induction false} EntriesPrintShown(es: seq<Node>, k: nat, parent: Listing, dir: Path, prefix: Prefix,
                                             options: TreeOptions, platform: Platform)
    requires k <= |es|
    requires EntriesOf(es, parent)
    requires forall n :: n in es ==> !ShouldIgnore(dir + [n.name], PathIsDir(n), options)
    requires WalkEntries(es, k, parent, dir, prefix, options, platform).outcome.Done?
    ensures multiset(Paths(WalkEntries(es, k, parent, dir, prefix, options, platform).visits)) == ShownFirst(es, k, dir, options)
    decreases parent, 0, k, 1
  {
    if k > 0 {
      EntryPrintsShown(es, k - 1, parent, dir, prefix, options, platform);
      EntriesPrintShown(es, k - 1, parent, dir, prefix, options, platform);
    }
  }

  /** Entry `i` adds its own path and, for a directory, what that directory shows. */
  lemma {:induction false} EntryPrintsShown(es: seq<Node>, i: nat, parent: Listing, dir: Path, prefix: Prefix,
                                            options: TreeOptions, platform: Platform)
    requires i < |es|
    requires EntriesOf(es, parent)
    requires forall n :: n in es ==> !ShouldIgnore(dir + [n.name], PathIsDir(n), options)
    requires WalkEntries(es, i + 1, parent, dir, prefix, options, platform).outcome.Done?
    ensures WalkEntries(es, i, parent, dir, prefix, options, platform).outcome.Done?
    ensures multiset(Paths(WalkEntries(es, i + 1, parent, dir, prefix, options, platform).visits))
         == multiset(Paths(WalkEntries(es, i, parent, dir, prefix, options, platform).visits)) + Shown(es[i], dir, options)
    decreases parent, 0, i + 1, 0
  {
    var before := WalkEntries(es, i, parent, dir, prefix, options, platform).visits;
    var n := es[i];
    EarlierDone(es, i, i + 1, parent, dir, prefix, options, platform);
    assert n in es;
    assert n.metadataReadable;
    WalkEntriesNext(es, i, parent, dir, prefix, options, platform);
    var isLast := i == |es| - 1;
    var path := dir + [n.name];
    var v := Visit(path, Line(prefix, BranchFor(isLast), DisplayOf(n, platform)));
    PathsAppend(before, [v]);
    if IsDir(n) {
      var sub := WalkListing(n.kind.listing, path, prefix + [IndentFor(isLast)], options, platform);
      WalkPrintsReachable(n.kind.listing, path, prefix + [IndentFor(isLast)], options, platform);
      PathsAppend(before + [v], sub.visits);
    }
  }

  // ---- when the walk succeeds ----

  /** A walk succeeds exactly when everything it needs can be read. */
  lemma {:induction false} WalkDoneIffHealthy(listing: Listing, dir: Path, prefix: Prefix, options: TreeOptions, platform: Platform)
    ensures WalkListing(listing, dir, prefix, options, platform).outcome.Done? <==> Healthy(listing, dir, options)
    decreases listing, 1
  {
    if listing.Entries? {
      var es := Listed(listing.items, dir, options);
      EntriesDoneIff(es, |es|, listing, dir, prefix, options, platform);
      AllHealthyAt(es, |es|, dir, options);
      ListedHealthy(listing, dir, options);
    }
  }

  /** Every one of the first `k` entries of `es` is healthy. */
  ghost predicate AllHealthy(es: seq<Node>, k: nat, dir: Path, options: TreeOptions)
    requires k <= |es|
  {
    k == 0 || (AllHealthy(es, k - 1, dir, options) && EntryHealthy(es[k - 1], dir, options))
  }

  lemma {:induction false} AllHealthyAt(es: seq<Node>, k: nat, dir: Path, options: TreeOptions)
    requires k <= |es|
    ensures AllHealthy(es, k, dir, options) <==> forall j :: 0 <= j < k ==> EntryHealthy(es[j], dir, options)
  {
    if k > 0 {
      AllHealthyAt(es, k - 1, dir, options);
    }
  }

  lemma {:induction false} EntriesDoneIff(es: seq<Node>, k: nat, parent: Listing, dir: Path, prefix: Prefix,
                                          options: TreeOptions, platform: Platform)
    requires k <= |es|
    requires EntriesOf(es, parent)
    requires forall n :: n in es ==> !ShouldIgnore(dir + [n.name], PathIsDir(n), options)
    ensures WalkEntries(es, k, parent, dir, prefix, options, platform).outcome.Done? <==> AllHealthy(es, k, dir, options)
    decreases parent, 0, k, 1
  {
    if k > 0 {
      EntriesDoneIff(es, k - 1, parent, dir, prefix, options, platform);
      if WalkEntries(es, k - 1, parent, dir, prefix, options, platform).outcome.Failed? {
        FailureStops(es, k - 1, k, parent, dir, prefix, options, platform);
      } else {
        EntryDoneIff(es, k - 1, parent, dir, prefix, options, platform);
      }
    }
  }

  /** Once the earlier entries succeeded, entry `i` succeeds exactly when it is healthy. */
  lemma {:induction false} EntryDoneIff(es: seq<Node>, i: nat, parent: Listing, dir: Path, prefix: Prefix,
                                        options: TreeOptions, platform: Platform)
    requires i < |es|
    requires EntriesOf(es, parent)
    requires forall n :: n in es ==> !ShouldIgnore(dir + [n.name], PathIsDir(n), options)
    requires WalkEntries(es, i, parent, dir, prefix, options, platform).outcome.Done?
    ensures WalkEntries(es, i + 1, parent, dir, prefix, options, platform).outcome.Done? <==> EntryHealthy(es[i], dir, options)
    decreases parent, 0, i + 1, 0
  {
    var n := es[i];
    assert n in es;
    if n.metadataReadable {
      WalkEntriesNext(es, i, parent, dir, prefix, options, platform);
      if IsDir(n) {
        var isLast := i == |es| - 1;
        WalkDoneIffHealthy(n.kind.listing, dir + [n.name], prefix + [IndentFor(isLast)], options, platform);
      }
    }
  }

  /** Health of the listing is health of every entry the walk prints. */
  lemma ListedHealthy(listing: Listing, dir: Path, options: TreeOptions)
    requires listing.Entries?
    ensures HealthyAmong(listing, |listing.items|, dir, options)
        <==> forall j :: 0 <= j < |Listed(listing.items, dir, options)| ==> EntryHealthy(Listed(listing.items, dir, options)[j], dir, options)
  {
    var items := listing.items;
    var es := Listed(items, dir, options);
    HealthyReadable(listing, |items|, dir, options);
    assert items[..|items|] == items;
    var readable := ReadableEntries(items);
    assert HealthyAmong(listing, |items|, dir, options) <==> forall n :: n in readable ==> EntryHealthy(n, dir, options);
    if HealthyAmong(listing, |items|, dir, options) {
      forall j | 0 <= j < |es| ensures EntryHealthy(es[j], dir, options) {
        assert es[j] in es;
        assert Present(es[j]) in items;
        ReadableMembers(items, es[j]);
      }
    } else {
      var n :| n in readable && !EntryHealthy(n, dir, options);
      ReadableMembers(items, n);
      ListedComplete(items, dir, options, n);
      var j :| 0 <= j < |es| && es[j] == n;
    }
  }

  /** Health of the first `k` items is health of each of their readable entries. */
  lemma {:induction false} HealthyReadable(listing: Listing, k: nat, dir: Path, options: TreeOptions)
    requires listing.Entries? && k <= |listing.items|
    ensures HealthyAmong(listing, k, dir, options)
        <==> forall n :: n in ReadableEntries(listing.items[..k]) ==> EntryHealthy(n, dir, options)
  {
    if k > 0 {
      var items := listing.items[..k];
      assert items[..k - 1] == listing.items[..k - 1];
      HealthyReadable(listing, k - 1, dir, options);
      var rest := ReadableEntries(items[..k - 1]);
      match items[k - 1]
      case Vanished =>
        assert ReadableEntries(items) == rest;
      case Present(m) =>
        assert ReadableEntries(items) == rest + [m];
        assert (forall n :: n in rest + [m] ==> EntryHealthy(n, dir, options))
           <==> (forall n :: n in rest ==> EntryHealthy(n, dir, options)) && EntryHealthy(m, dir, options);
    }
  }

  /**
    Any present entry whose metadata cannot be read, and which the matcher
    keeps when asked about a non-directory, makes the walk of its directory fail.
  */
  lemma UnreadableEntryFailsWalk(items: seq<Item>, n: Node, dir: Path, prefix: Prefix, options: TreeOptions, platform: Platform)
    requires Present(n) in items && !n.metadataReadable && !ShouldIgnore(dir + [n.name], false, options)
    ensures WalkListing(Entries(items), dir, prefix, options, platform).outcome.Failed?
  {
    WalkDoneIffHealthy(Entries(items), dir, prefix, options, platform);
    HealthyReadable(Entries(items), |items|, dir, options);
    assert items[..|items|] == items;
    ReadableMembers(items, n);
  }

  // ---- the whole program ----

  /**
    The program succeeds exactly when every listing and metadata query it
    needs is readable, and then prints the root line plus one line per
    reachable path.
  */
  lemma TreeLineCount(root: Path, listing: Listing, gitignore: Option<Matcher>, platform: Platform)
    ensures RenderTree(root, listing, gitignore, platform).1.Done? <==> Healthy(listing, root, TreeOptions(gitignore, root))
    ensures RenderTree(root, listing, gitignore, platform).1.Done? ==>
              |RenderTree(root, listing, gitignore, platform).0| == 1 + |Reachable(listing, root, TreeOptions(gitignore, root))|
  {
    var options := TreeOptions(gitignore, root);
    var walk := WalkListing(listing, root, [], options, platform);
    WalkDoneIffHealthy(listing, root, [], options, platform);
    if walk.outcome.Done? {
      WalkPrintsReachable(listing, root, [], options, platform);
      assert |multiset(Paths(walk.visits))| == |Paths(walk.visits)|;
    }
  }
}
