# tree — a verified model of the directory printer

`tree` prints a directory as a tree. It prints the root's name followed by
`/`, then walks the directory recursively:

- It lists each directory and drops the entries the listing reports as errors.
- It drops the entries the gitignore matcher ignores.
- It sorts the remaining entries: directories first, then by name.
- It prints one line per entry: the accumulated prefix, `├── ` (or `└── ` on
  the last sibling), then the name. A directory's name gets a trailing `/`
  and the directory colour; an executable file gets the executable colour.
- After a directory's line it prints that directory's contents with a
  prefix one segment longer: `│   `, or four blanks below the last sibling.
- The first failing `read_dir` or `metadata` call stops the whole program.
  Lines already printed stay printed.

The model has two layers:

- A pure specification (`Render.WalkListing`/`WalkEntries`, `Render.RenderTree`). It gives the exact lines printed and the outcome for any finite directory tree.
- An imperative walker (`Walker`). It has the source's `for` loop and recursion and is proved to print exactly those lines.

About the specification, the model proves:

- the sort order;
- the branch markers;
- the prefix depth;
- that the printed paths are exactly the reachable, unignored paths, each printed as often as it is reachable (once, when the names within each directory are distinct);
- that the program succeeds exactly when every query it needs succeeds.

The filesystem is a value (`FileSystem.Listing`). Each query the walker makes on an entry is one field, or is derived from those fields:

- `read_dir` may fail;
- an item may be an error;
- `file_type` may fail;
- `metadata` may fail;
- `Path::is_dir`, which the ignore check uses, is not a field. It reads the metadata again and answers false when that fails. So it is true exactly for a directory whose metadata can be read (`FileSystem.PathIsDir`).

The gitignore matcher is an arbitrary total predicate on root-relative paths.

A printed line is a `Render.Line`. Its prefix is a list of indentation segments, its marker is one of three markers, and its name is styled. `Render.LineText` spells out the characters of a line.

The root line uses `file_name()` of the canonical root path. When the root is `/`, which has no file name, it uses the whole path, so that root prints as `//` (`Render.RootLineText`).

## Model

| member | source | states |
|---|---|---|
| FileSystem.ReadableEntries | src/main.rs:77-78 | the errored items are dropped, so at most as many entries remain as the listing has items |
| FileSystem.IsDir | src/main.rs:95-110 | `metadata.is_dir()`: the entry is a directory; this picks the directory style and the recursion |
| FileSystem.PathIsDir | src/main.rs:56 | `path.is_dir()` is true exactly for a directory whose metadata can be read |
| FileSystem.ReadableMembers | src/main.rs:77-78 | a node survives `filter_map(ok)` exactly when the listing yields it without an error |
| Ignore.StripPrefix | src/main.rs:55 | the result exists exactly when the root is a leading part of the path, and then the root followed by the result is the path |
| Ignore.ShouldIgnore | src/main.rs:53-60 | the ignore decision: false without a matcher; false when the path is not below the root; otherwise the matcher's verdict on the root-relative path and the directory flag |
| Ignore.StripPrefixOfJoin | src/main.rs:55 | stripping the root from the root joined with a relative path gives back that relative path |
| Ignore.NoMatcherIgnoresNothing | src/main.rs:53-60 | without a gitignore matcher no entry is ignored |
| Ignore.OutsideRootNotIgnored | src/main.rs:53-60 | when `strip_prefix` fails the entry is not ignored |
| Ignore.BelowRootAsksMatcher | src/main.rs:55-56 | below the root, the entry is ignored exactly when the matcher matches its root-relative path and directory flag |
| Permissions.IsExecutable | src/main.rs:62-70 | on unix, true exactly when one of the bits 0o100, 0o010 or 0o001 is set in the mode; on other platforms, always false |
| Ordering.NameLe | src/main.rs:85 | the order on `file_name()`: lexicographic, element by element, with a proper prefix first |
| Ordering.SortsAsDir | src/main.rs:84 | the first key component is false exactly for an entry whose file type is readable and is a directory; an unreadable file type counts as not a directory |
| Ordering.KeyLe | src/main.rs:83-86 | the tuple order on `(is_not_dir, file_name)`, with false before true |
| Ordering.NameLeReflexive | src/main.rs:85 | every name is at most itself in the name order |
| Ordering.NameLeTotal | src/main.rs:85 | any two names are comparable |
| Ordering.NameLeTransitive | src/main.rs:85 | the name order is transitive |
| Ordering.NameLeAntisymmetric | src/main.rs:85 | two names each at most the other are equal |
| Ordering.KeyLeTotal | src/main.rs:82-86 | any two entries are comparable under the sort key `(is_not_dir, file_name)` |
| Ordering.KeyLeTransitive | src/main.rs:82-86 | the sort-key order is transitive |
| Ordering.PrependSorted | src/main.rs:82-86 | an entry whose key is at most the head of a sorted sequence can go in front of it and keep it sorted |
| Ordering.Insert | src/main.rs:82-86 | puts one entry in front of the first entry it is at most, in key order |
| Ordering.SortEntries | src/main.rs:82-86 | `sort_by_key` on the filtered entries, modelled as insertion sort; its meaning is given by SortEntriesSorted and SortEntriesPermutation |
| Ordering.InsertPermutation | src/main.rs:82-86 | inserting an entry adds exactly that entry to the multiset |
| Ordering.InsertSorted | src/main.rs:82-86 | inserting into a sorted sequence keeps it sorted |
| Ordering.SortEntriesPermutation | src/main.rs:82-86 | the sorted entries are a permutation of the filtered entries |
| Ordering.SortEntriesSorted | src/main.rs:82-86 | the sorted entries are in sort-key order |
| Ordering.SortedSiblingOrder | src/main.rs:82-86 | directories come before non-directories; within each group names ascend; an entry whose file type cannot be read sorts with the non-directories |
| Ordering.SortedUnique | src/main.rs:82-86 | two sorted arrangements of the same distinctly named entries are equal, so the order does not depend on the sort algorithm |
| Ordering.SortedHeadsAgree | src/main.rs:82-86 | two sorted arrangements of the same distinctly named entries start with the same entry |
| Ordering.TailSorted | src/main.rs:82-86 | dropping the first entry of a sorted sequence keeps it sorted |
| Ordering.TailMultiset | src/main.rs:82-86 | two permutations of each other with the same first entry stay permutations after dropping it |
| Render.BranchFor | src/main.rs:106 | the marker is `└── ` exactly on the last sibling and is never absent on an entry line |
| Render.BranchText | src/main.rs:106 | the marker characters: `└── ` for the last sibling, `├── ` for the others, nothing on the root line |
| Render.IndentFor | src/main.rs:111 | the prefix segment is four blanks exactly below the last sibling |
| Render.IndentText | src/main.rs:111 | each prefix segment is four characters wide |
| Render.PrefixText | src/main.rs:111 | a prefix of d segments is 4·d characters long |
| Render.PrefixTextDeeper | src/main.rs:111 | a child's prefix text is the parent's prefix text followed by `    ` below the last sibling and `│   ` otherwise |
| Render.DisplayText | src/main.rs:95-101 | the characters of a shown name: a directory's name followed by `/`, any other name as it is |
| Render.LineText | src/main.rs:103-108 | the characters `println!` writes for a line: prefix text, marker text, shown name |
| Render.DisplayOf | src/main.rs:94-101 | the shown name is the entry's name; the directory style is used exactly for directories; the executable style exactly for non-directories with an execute bit; all others are plain |
| Render.DisplayTextOf | src/main.rs:95-96 | a directory is shown with a trailing `/`, any other entry by its name alone |
| Render.EntryLineText | src/main.rs:103-108 | an entry line's characters are the prefix, the marker for its place among its siblings, and its shown name |
| Render.Kept | src/main.rs:79 | the ignore filter never adds entries |
| Render.KeptMembers | src/main.rs:79 | an entry survives the ignore filter exactly when it was listed and is not ignored, the directory flag being what `path.is_dir()` answers |
| Render.Listed | src/main.rs:77-86 | every entry a call prints is a present item of its listing and is not ignored |
| Render.ListedComplete | src/main.rs:77-86 | every present item that is not ignored is among the entries a call prints |
| Render.WalkListing | src/main.rs:72-117 | the lines and the outcome of `print_directory_contents`: an unreadable directory fails with nothing printed; otherwise the walk over its filtered, sorted entries |
| Render.WalkEntries | src/main.rs:88-113 | the loop over the first k sorted entries: each prints its line and, for a directory, the directory's walk one segment deeper; the first failure stops it |
| Render.UnreadableEntryStopsWalk | src/main.rs:56-91 | in a listing whose only item is an entry with unreadable metadata, that entry is asked about as a non-directory, so a directory-only ignore rule does not hide it; the walk then fails on its metadata with nothing printed |
| Reach.UnreadableEntryFailsWalk | src/main.rs:56-91 | in any listing, a present entry with unreadable metadata that the matcher keeps when asked about a non-directory makes the directory's walk fail |
| Render.WalkEntriesNext | src/main.rs:89-113 | after a clean prefix, a readable entry adds its line and, for a directory, that directory's walk with the longer prefix, whose outcome becomes the walk's |
| Render.WalkEntriesStops | src/main.rs:91 | after a clean prefix, an entry whose metadata cannot be read stops the walk with that error and prints nothing for it |
| Render.EarlierDone | src/main.rs:91 | a walk that is clean after m entries was clean after every earlier count |
| Render.FailureStaysNext | src/main.rs:112 | once a walk has failed, the next entry changes nothing |
| Render.FailureStops | src/main.rs:112 | once a walk has failed, no later entry prints or changes the error |
| Render.RootName | src/main.rs:28-31 | `file_name()` of the root, or the whole path `/` when the root has none |
| Render.RootLine | src/main.rs:32 | the root line: the root's name in the directory style, with no prefix and no marker |
| Render.RootLineText | src/main.rs:28-32 | the root line is the root's name followed by `/`, and the root `/` prints as `//` |
| Render.RenderTree | src/main.rs:32-34 | the root line is always printed first, whatever the walk does |
| Walker.PrintDirectoryContents | src/main.rs:72-117 | prints exactly the lines of the directory's walk and returns its outcome; an unreadable directory prints nothing and fails |
| Walker.PrintEntries | src/main.rs:88-116 | the loop prints the lines of the walk over all sorted entries and stops at the first error |
| Walker.PrintEntry | src/main.rs:89-113 | one loop iteration extends the printed lines by exactly what entry i adds to the walk |
| Walker.PrintTree | src/main.rs:27-35 | the program's output is the root line followed by the root's walk |
| Placement.PlacedInParent | src/main.rs:110-112 | a line placed by a subdirectory's walk, started with the longer prefix, is placed by the parent's walk |
| Placement.WalkPlaced | src/main.rs:77-113 | every printed line is below its directory; its prefix extends the starting prefix by one segment per level; it has a marker; it shows its own name; it is neither ignored nor below an ignored directory |
| Placement.EntriesPlaced | src/main.rs:88-113 | the same for the walk over the first k sorted entries |
| Placement.RootWalkDepth | src/main.rs:103-112 | every line under the root has one prefix segment, four characters, per level below the root's entries |
| Siblings.EntriesAtOwnLevel | src/main.rs:88-113 | the lines at a walk's own depth are the lines of its entries, in sorted order |
| Siblings.OwnLevelStep | src/main.rs:89-113 | entry i adds its own line, and nothing else, at the walk's own depth, so the own-depth lines of the first i+1 entries are those of the first i followed by entry i's line |
| Siblings.SiblingLines | src/main.rs:88-108 | a successful walk prints one line per sorted, unignored entry at its own depth, in order, with that entry's marker, prefix and name |
| Siblings.LastMarkerOnlyOnLast | src/main.rs:89-106 | at a walk's own depth, exactly the last line carries `└── ` |
| Siblings.EmptyDirectoryPrintsNothing | src/main.rs:88-89 | a directory with no entries left after filtering prints no line and succeeds |
| Reach.ShownAllPermutation | src/main.rs:82-86 | what a sequence of entries shows does not depend on their order |
| Reach.ShownAllKept | src/main.rs:79 | dropping the ignored entries drops nothing they would show |
| Reach.ShownAllReadable | src/main.rs:77-78 | what the readable entries show is what the listing's items contribute |
| Reach.ReachableIsListed | src/main.rs:77-86 | the reachable paths of a listing are what its filtered and sorted entries show |
| Reach.WalkPrintsReachable | src/main.rs:77-113 | a successful walk prints every reachable path exactly as often as it is reachable, and nothing else |
| Reach.EntriesPrintShown | src/main.rs:88-113 | the walk over the first k entries prints exactly what those entries show |
| Reach.EntryPrintsShown | src/main.rs:89-113 | entry i prints its own path and, for a directory, what that directory shows |
| Reach.WalkDoneIffHealthy | src/main.rs:77-112 | a walk succeeds exactly when its listing and every metadata query and sub-listing it needs can be read |
| Reach.EntriesDoneIff | src/main.rs:88-113 | the walk over the first k entries succeeds exactly when each of them is healthy |
| Reach.EntryDoneIff | src/main.rs:91-112 | after a clean prefix, entry i succeeds exactly when its metadata and, for a directory, its walk succeed |
| Reach.ListedHealthy | src/main.rs:77-86 | a listing is healthy exactly when every entry the walk prints is healthy |
| Reach.HealthyReadable | src/main.rs:77-78 | the health of the first k items is the health of each of their readable entries |
| Reach.TreeLineCount | src/main.rs:27-35 | the program succeeds exactly when everything it needs is readable, and then prints 1 + (number of reachable paths) lines |

## Left out

- Argument parsing, `canonicalize` and the current-directory default are not modelled. The root is given as an already resolved path.
- `load_gitignore` is not modelled: the builder, the built-in `**/.git/` rule, reading `.gitignore` and glob matching. The matcher is any total predicate on a root-relative path and a directory flag. The model does not capture that `.git` is always ignored.
- Symlinks are not modelled, including cycles through symlinked directories. The source asks "is it a directory?" three times. `should_ignore` asks `path.is_dir()`, which follows symlinks and answers false when the metadata cannot be read. The sort asks `file_type()`, which does not follow them. The display and the recursion ask `entry.metadata()`. The model has one `kind` per node, plus flags saying whether `file_type()` and the metadata query succeed. `path.is_dir()` is derived from these. The model assumes the two metadata reads agree.
- Colours are not modelled. The cyan and green escapes are the style tags `DirStyle` and `ExecStyle`.
- `println!` is not modelled as output. The printed lines are returned in order, and `Render.LineText` gives their characters.
- `to_string_lossy` is not modelled. Names are strings ordered character by character. That matches the byte order of UTF-8 file names.
- Walker.PrintDirectoryContents: the library `sort_by_key` is modelled as a stable insertion sort (`Ordering.SortEntries`). Stability is not proved. `Ordering.SortedUnique` shows that for the distinct names of one directory, any correct sort gives the same result.
- The error value inside the program's `Box<dyn Error>` is not modelled. Neither is how `main` reports it. The model records only which path failed and how.
- The other platforms' permission test is not modelled: it is the constant `false` of the non-unix variant. File modes are 32-bit words.
