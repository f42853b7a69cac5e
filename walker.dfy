/**
  The walker as the program runs it: it rebinds the filtered listing, sorts
  it, and prints entry after entry in a loop, recursing into directories
  and stopping at the first error it propagates.
*/
module Walker {
  import opened Wrappers
  import opened FileSystem
  import opened Ignore
  import opened Permissions
  import opened Ordering
  import opened Render

  /** Prints one directory's entries below `prefix`; `printed` is what reached the output. */
  method PrintDirectoryContents(listing: Listing, dir: Path, prefix: Prefix, options: TreeOptions, platform: Platform)
    returns (printed: seq<Line>, outcome: Outcome)
    ensures printed == Lines(WalkListing(listing, dir, prefix, options, platform).visits)
    ensures outcome == WalkListing(listing, dir, prefix, options, platform).outcome
    decreases listing, 2
  {
    if listing.Unreadable? {
      return [], Failed(ReadDirFailed(dir));
    }
    var entries := Kept(ReadableEntries(listing.items), dir, options);
    entries := SortEntries(entries);
    assert entries == Listed(listing.items, dir, options);
    printed, outcome := PrintEntries(entries, listing, dir, prefix, options, platform);
  }

  /** The loop over the sorted entries of `parent`, stopping at the first error. */
  method PrintEntries(entries: seq<Node>, ghost parent: Listing, dir: Path, prefix: Prefix,
                      options: TreeOptions, platform: Platform)
    returns (printed: seq<Line>, outcome: Outcome)
    requires EntriesOf(entries, parent)
    ensures printed == Lines(WalkEntries(entries, |entries|, parent, dir, prefix, options, platform).visits)
    ensures outcome == WalkEntries(entries, |entries|, parent, dir, prefix, options, platform).outcome
    decreases parent, 1
  {
    printed := [];
    for i := 0 to |entries|
      invariant var walk := WalkEntries(entries, i, parent, dir, prefix, options, platform);
        walk.outcome == Done && printed == Lines(walk.visits)
    {
      printed, outcome := PrintEntry(entries, i, parent, dir, prefix, options, platform, printed);
      if outcome.Failed? {
        FailureStops(entries, i + 1, |entries|, parent, dir, prefix, options, platform);
        return;
      }
    }
    outcome := Done;
  }

  /**
    The body of the loop for entry `i`: its line, then the walk of its
    directory, appended to the lines `before` already printed.
  */
  method PrintEntry(entries: seq<Node>, i: nat, ghost parent: Listing, dir: Path, prefix: Prefix,
                    options: TreeOptions, platform: Platform, before: seq<Line>)
    returns (printed: seq<Line>, outcome: Outcome)
    requires i < |entries|
    requires EntriesOf(entries, parent)
    requires WalkEntries(entries, i, parent, dir, prefix, options, platform).outcome == Done
    requires before == Lines(WalkEntries(entries, i, parent, dir, prefix, options, platform).visits)
    ensures printed == Lines(WalkEntries(entries, i + 1, parent, dir, prefix, options, platform).visits)
    ensures outcome == WalkEntries(entries, i + 1, parent, dir, prefix, options, platform).outcome
    decreases parent, 0
  {
    var entry := entries[i];
    var isLast := i == |entries| - 1;
    var path := dir + [entry.name];
    if !entry.metadataReadable {
      WalkEntriesStops(entries, i, parent, dir, prefix, options, platform);
      return before, Failed(MetadataFailed(path));
    }
    WalkEntriesNext(entries, i, parent, dir, prefix, options, platform);
    var line := Line(prefix, BranchFor(isLast), DisplayOf(entry, platform));
    ghost var visits := WalkEntries(entries, i, parent, dir, prefix, options, platform).visits + [Visit(path, line)];
    LinesSnoc(WalkEntries(entries, i, parent, dir, prefix, options, platform).visits, Visit(path, line));
    printed := before + [line];
    outcome := Done;
    if IsDir(entry) {
      var sub;
      sub, outcome := PrintDirectoryContents(entry.kind.listing, path, prefix + [IndentFor(isLast)], options, platform);
      LinesAppend(visits, WalkListing(entry.kind.listing, path, prefix + [IndentFor(isLast)], options, platform).visits);
      printed := printed + sub;
    }
  }

  /** The program's output for a resolved root: the root line, then the root's walk. */
  method PrintTree(root: Path, listing: Listing, gitignore: Option<Matcher>, platform: Platform)
    returns (printed: seq<Line>, outcome: Outcome)
    ensures (printed, outcome) == RenderTree(root, listing, gitignore, platform)
  {
    var options := TreeOptions(gitignore, root);
    printed := [RootLine(root)];
    var rest;
    rest, outcome := PrintDirectoryContents(listing, root, [], options, platform);
    printed := printed + rest;
  }
}
