/**
  What `print_directory_contents` prints, as a pure function of the tree.
  A walk lists a directory, drops the errored and the ignored entries,
  sorts the rest, and for each entry in order prints one line and, for a
  directory, the walk of that directory one level deeper.  The first error
  that is not swallowed stops the whole walk; what was printed before it
  stays printed.
*/
module Render {
  import opened Wrappers
  import opened FileSystem
  import opened Ignore
  import opened Permissions
  import opened Ordering

  /** The colour of a displayed name: cyan for directories, green for executables, none otherwise. */
  datatype Style = DirStyle | ExecStyle | Plain

  /** A name as shown: the entry's name and its colour; a directory's name is followed by `/`. */
  datatype Display = Display(name: string, style: Style)

  /** The marker before a name: `├── ` when a sibling follows, `└── ` on the last sibling, none on the root line. */
  datatype Branch = NoBranch | MidBranch | LastBranch

  /** One level of prefix: `│   ` below an entry with later siblings, four blanks below the last one. */
  datatype Indent = MidIndent | LastIndent

  /** The prefix in front of a line's branch marker, one segment per level of depth. */
  type Prefix = seq<Indent>

  /** One line of output: the accumulated prefix, the branch marker, and the styled name. */
  datatype Line = Line(prefix: Prefix, branch: Branch, display: Display)

  datatype Error = ReadDirFailed(dir: Path) | MetadataFailed(entry: Path)

  datatype Outcome = Done | Failed(error: Error)

  /** One printed entry: the path it stands for and the line printed for it. */
  datatype Visit = Visit(path: Path, line: Line)

  /** What a walk printed, in order, and how it ended. */
  datatype Walk = Walk(visits: seq<Visit>, outcome: Outcome)

  const LAST_BRANCH: string := "└── "
  const MID_BRANCH: string := "├── "
  const LAST_INDENT: string := "    "
  const MID_INDENT: string := "│   "

  function BranchFor(isLast: bool): (b: Branch)
    ensures b == LastBranch <==> isLast
    ensures b != NoBranch
  {
    if isLast then LastBranch else MidBranch
  }

  function IndentFor(isLast: bool): (i: Indent)
    ensures i == LastIndent <==> isLast
  {
    if isLast then LastIndent else MidIndent
  }

  function BranchText(b: Branch): string {
    match b
    case NoBranch => ""
    case MidBranch => MID_BRANCH
    case LastBranch => LAST_BRANCH
  }

  function IndentText(i: Indent): (s: string)
    ensures |s| == 4
  {
    if i == LastIndent then LAST_INDENT else MID_INDENT
  }

  /** The characters of a prefix: its segments side by side, four characters each. */
  function PrefixText(p: Prefix): (s: string)
    ensures |s| == 4 * |p|
  {
    if p == [] then "" else PrefixText(p[..|p| - 1]) + IndentText(p[|p| - 1])
  }

  /** Going one level deeper appends exactly one segment's characters to the prefix text. */
  lemma PrefixTextDeeper(p: Prefix, isLast: bool)
    ensures PrefixText(p + [IndentFor(isLast)]) == PrefixText(p) + (if isLast then LAST_INDENT else MID_INDENT)
  {
    assert (p + [IndentFor(isLast)])[..|p|] == p;
  }

  function DisplayText(d: Display): string {
    if d.style == DirStyle then d.name + "/" else d.name
  }

  /** The characters `println!` writes for a line (without the newline). */
  function LineText(l: Line): string {
    PrefixText(l.prefix) + BranchText(l.branch) + DisplayText(l.display)
  }

  /** The styled name printed for an entry whose metadata was read. */
  function DisplayOf(n: Node, platform: Platform): (d: Display)
    ensures d.name == n.name
    ensures d.style == DirStyle <==> IsDir(n)
    ensures d.style == ExecStyle <==> !IsDir(n) && IsExecutable(platform, n.kind.mode)
  {
    if IsDir(n) then Display(n.name, DirStyle)
    else if IsExecutable(platform, n.kind.mode) then Display(n.name, ExecStyle)
    else Display(n.name, Plain)
  }

  /** A directory's name is shown with a trailing `/`, any other name as it is. */
  lemma DisplayTextOf(n: Node, platform: Platform)
    ensures DisplayText(DisplayOf(n, platform)) == if IsDir(n) then n.name + "/" else n.name
  {
  }

  /** An entry's line is the prefix text, the marker for its place among its siblings, and its shown name. */
  lemma EntryLineText(prefix: Prefix, isLast: bool, n: Node, platform: Platform)
    ensures LineText(Line(prefix, BranchFor(isLast), DisplayOf(n, platform)))
         == PrefixText(prefix) + (if isLast then LAST_BRANCH else MID_BRANCH) + (if IsDir(n) then n.name + "/" else n.name)
  {
  }

  /** The entries that survive the ignore filter, in listing order. */
  function Kept(es: seq<Node>, dir: Path, options: TreeOptions): (r: seq<Node>)
    ensures |r| <= |es|
  {
    if es == [] then []
    else
      var n := es[|es| - 1];
      var rest := Kept(es[..|es| - 1], dir, options);
      if ShouldIgnore(dir + [n.name], PathIsDir(n), options) then rest else rest + [n]
  }

  /** The kept entries are exactly the entries that are not ignored. */
  lemma {:induction false} KeptMembers(es: seq<Node>, dir: Path, options: TreeOptions, n: Node)
    ensures n in Kept(es, dir, options) <==> n in es && !ShouldIgnore(dir + [n.name], PathIsDir(n), options)
  {
    if es != [] {
      var init := es[..|es| - 1];
      KeptMembers(init, dir, options, n);
      assert es == init + [es[|es| - 1]];
    }
  }

  /** The entries one call prints, in print order. */
  function Listed(items: seq<Item>, dir: Path, options: TreeOptions): (r: seq<Node>)
    ensures forall n :: n in r ==> Present(n) in items && !ShouldIgnore(dir + [n.name], PathIsDir(n), options)
  {
    var kept := Kept(ReadableEntries(items), dir, options);
    var r := SortEntries(kept);
    assert forall n :: n in r ==> Present(n) in items && !ShouldIgnore(dir + [n.name], PathIsDir(n), options) by {
      forall n | n in r ensures Present(n) in items && !ShouldIgnore(dir + [n.name], PathIsDir(n), options) {
        SortEntriesPermutation(kept);
        assert n in multiset(r);
        KeptMembers(ReadableEntries(items), dir, options, n);
        ReadableMembers(items, n);
      }
    }
    r
  }

  /** Every present entry that is not ignored is among the entries printed. */
  lemma ListedComplete(items: seq<Item>, dir: Path, options: TreeOptions, n: Node)
    requires Present(n) in items && !ShouldIgnore(dir + [n.name], PathIsDir(n), options)
    ensures n in Listed(items, dir, options)
  {
    var kept := Kept(ReadableEntries(items), dir, options);
    ReadableMembers(items, n);
    KeptMembers(ReadableEntries(items), dir, options, n);
    SortEntriesPermutation(kept);
    assert n in multiset(SortEntries(kept));
  }

  /**
    An entry whose metadata cannot be read is asked about as a non-directory,
    so a directory-only ignore rule does not hide it, and the walk then stops
    on its metadata.
  */
  lemma UnreadableEntryStopsWalk(n: Node, dir: Path, prefix: Prefix, options: TreeOptions, platform: Platform)
    requires !n.metadataReadable && !ShouldIgnore(dir + [n.name], false, options)
    ensures WalkListing(Entries([Present(n)]), dir, prefix, options, platform) == Walk([], Failed(MetadataFailed(dir + [n.name])))
  {
    var listing := Entries([Present(n)]);
    assert ReadableEntries([Present(n)]) == [n];
    assert Kept([n], dir, options) == [n] by {
      assert [n][..0] == [];
    }
    assert SortEntries([n]) == [n] by {
      assert [n][1..] == [];
    }
    var es := Listed(listing.items, dir, options);
    assert es == [n];
    assert WalkEntries(es, 0, listing, dir, prefix, options, platform) == Walk([], Done);
    WalkEntriesStops(es, 0, listing, dir, prefix, options, platform);
  }

  /** `es` are entries of the readable listing `parent`. */
  ghost predicate EntriesOf(es: seq<Node>, parent: Listing) {
    parent.Entries? && forall n :: n in es ==> Present(n) in parent.items
  }

  /** The walk of one directory, printed with `prefix` in front of each of its entries. */
  function WalkListing(listing: Listing, dir: Path, prefix: Prefix, options: TreeOptions, platform: Platform): Walk
    decreases listing, 1
  {
    match listing
    case Unreadable => Walk([], Failed(ReadDirFailed(dir)))
    case Entries(items) =>
      var es := Listed(items, dir, options);
      WalkEntries(es, |es|, listing, dir, prefix, options, platform)
  }

  /** The walk over the first `k` of the sorted entries `es` of `parent`. */
  function WalkEntries(es: seq<Node>, k: nat, ghost parent: Listing, dir: Path, prefix: Prefix,
                       options: TreeOptions, platform: Platform): Walk
    requires k <= |es|
    requires EntriesOf(es, parent)
    decreases parent, 0, k
  {
    if k == 0 then Walk([], Done)
    else
      var before := WalkEntries(es, k - 1, parent, dir, prefix, options, platform);
      if before.outcome.Failed? then before
      else
        var n := es[k - 1];
        var isLast := k - 1 == |es| - 1;
        var path := dir + [n.name];
        if !n.metadataReadable then Walk(before.visits, Failed(MetadataFailed(path)))
        else
          var here := before.visits + [Visit(path, Line(prefix, BranchFor(isLast), DisplayOf(n, platform)))];
          if IsDir(n) then
            assert Present(n) in parent.items;
            var sub := WalkListing(n.kind.listing, path, prefix + [IndentFor(isLast)], options, platform);
            Walk(here + sub.visits, sub.outcome)
          else
            Walk(here, Done)
  }

  /** One more entry, when the walk so far is clean and the entry's metadata is readable. */
  lemma WalkEntriesNext(es: seq<Node>, k: nat, parent: Listing, dir: Path, prefix: Prefix,
                        options: TreeOptions, platform: Platform)
    requires k < |es|
    requires EntriesOf(es, parent)
    requires WalkEntries(es, k, parent, dir, prefix, options, platform).outcome == Done
    requires es[k].metadataReadable
    ensures Present(es[k]) in parent.items
    ensures var isLast := k == |es| - 1;
      var path := dir + [es[k].name];
      var here := WalkEntries(es, k, parent, dir, prefix, options, platform).visits
                  + [Visit(path, Line(prefix, BranchFor(isLast), DisplayOf(es[k], platform)))];
      && (IsDir(es[k]) ==>
            var sub := WalkListing(es[k].kind.listing, path, prefix + [IndentFor(isLast)], options, platform);
            WalkEntries(es, k + 1, parent, dir, prefix, options, platform) == Walk(here + sub.visits, sub.outcome))
      && (!IsDir(es[k]) ==> WalkEntries(es, k + 1, parent, dir, prefix, options, platform) == Walk(here, Done))
  {
    assert es[k] in es;
  }

  /** An entry whose metadata cannot be read stops a clean walk with that error. */
  lemma WalkEntriesStops(es: seq<Node>, k: nat, parent: Listing, dir: Path, prefix: Prefix,
                         options: TreeOptions, platform: Platform)
    requires k < |es|
    requires EntriesOf(es, parent)
    requires WalkEntries(es, k, parent, dir, prefix, options, platform).outcome == Done
    requires !es[k].metadataReadable
    ensures WalkEntries(es, k + 1, parent, dir, prefix, options, platform)
         == Walk(WalkEntries(es, k, parent, dir, prefix, options, platform).visits, Failed(MetadataFailed(dir + [es[k].name])))
  {
  }

  /** A walk that is clean after `m` entries was clean after every `k <= m`. */
  lemma EarlierDone(es: seq<Node>, k: nat, m: nat, parent: Listing, dir: Path, prefix: Prefix,
                    options: TreeOptions, platform: Platform)
    requires k <= m <= |es|
    requires EntriesOf(es, parent)
    requires WalkEntries(es, m, parent, dir, prefix, options, platform).outcome.Done?
    ensures WalkEntries(es, k, parent, dir, prefix, options, platform).outcome.Done?
  {
    if WalkEntries(es, k, parent, dir, prefix, options, platform).outcome.Failed? {
      FailureStops(es, k, m, parent, dir, prefix, options, platform);
    }
  }

  /** Once an error has stopped the walk, the next entry changes nothing. */
  lemma FailureStaysNext(es: seq<Node>, k: nat, parent: Listing, dir: Path, prefix: Prefix,
                         options: TreeOptions, platform: Platform)
    requires k < |es|
    requires EntriesOf(es, parent)
    requires WalkEntries(es, k, parent, dir, prefix, options, platform).outcome.Failed?
    ensures WalkEntries(es, k + 1, parent, dir, prefix, options, platform) == WalkEntries(es, k, parent, dir, prefix, options, platform)
  {
  }

  /** Once an error has stopped the walk, the later entries change nothing. */
  lemma {:induction false} FailureStops(es: seq<Node>, k: nat, m: nat, parent: Listing, dir: Path, prefix: Prefix,
                                        options: TreeOptions, platform: Platform)
    requires k <= m <= |es|
    requires EntriesOf(es, parent)
    requires WalkEntries(es, k, parent, dir, prefix, options, platform).outcome.Failed?
    ensures WalkEntries(es, m, parent, dir, prefix, options, platform) == WalkEntries(es, k, parent, dir, prefix, options, platform)
    decreases m - k
  {
    if k < m {
      FailureStaysNext(es, k, parent, dir, prefix, options, platform);
      FailureStops(es, k + 1, m, parent, dir, prefix, options, platform);
    }
  }

  /** The printed lines of `visits`, in order. */
  function Lines(visits: seq<Visit>): (r: seq<Line>)
    ensures |r| == |visits|
  {
    seq(|visits|, i requires 0 <= i < |visits| => visits[i].line)
  }

  lemma LinesAppend(a: seq<Visit>, b: seq<Visit>)
    ensures Lines(a + b) == Lines(a) + Lines(b)
  {
  }

  lemma LinesSnoc(a: seq<Visit>, v: Visit)
    ensures Lines(a + [v]) == Lines(a) + [v.line]
  {
    LinesAppend(a, [v]);
    assert Lines([v]) == [v.line];
  }

  /** The paths of `visits`, in order. */
  function Paths(visits: seq<Visit>): (r: seq<Path>)
    ensures |r| == |visits|
  {
    seq(|visits|, i requires 0 <= i < |visits| => visits[i].path)
  }

  /** `file_name()` of the canonical root, or the whole path (`/`) when it has none. */
  function RootName(root: Path): string {
    if root == [] then "/" else root[|root| - 1]
  }

  /** The root line: the root's name with `/`, in the directory style, with no prefix or branch. */
  function RootLine(root: Path): Line {
    Line([], NoBranch, Display(RootName(root), DirStyle))
  }

  /** The root line is the root's name and a `/`, so the root `/` itself prints as `//`. */
  lemma RootLineText(root: Path)
    ensures LineText(RootLine(root)) == RootName(root) + "/"
    ensures root == [] ==> LineText(RootLine(root)) == "//"
  {
  }

  /** Everything the program prints for the root `root` whose listing is `listing`. */
  function RenderTree(root: Path, listing: Listing, gitignore: Option<Matcher>, platform: Platform): (r: (seq<Line>, Outcome))
    ensures |r.0| >= 1 && r.0[0] == RootLine(root)
  {
    var walk := WalkListing(listing, root, [], TreeOptions(gitignore, root), platform);
    ([RootLine(root)] + Lines(walk.visits), walk.outcome)
  }
}
