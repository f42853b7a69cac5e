/** Option type shared by the model (the source's `Option<Gitignore>`, `Path::strip_prefix`). */
module Wrappers {
  datatype Option<+T> = None | Some(value: T)
}

/**
  The directory tree the walker reads, as a finite value.  Every filesystem
  query the walker makes is a field here:
  - `fs::read_dir` either fails (`Unreadable`) or yields items;
  - an item the listing iterator reports as an error is `Vanished`;
  - `DirEntry::file_type` either succeeds (`typeKnown`) or fails;
  - `DirEntry::metadata` either succeeds (`metadataReadable`) or fails;
  - the one directory/file distinction is `kind`;
  - `Path::is_dir` has no field of its own: it is derived (`PathIsDir`).
*/
module FileSystem {
  /** A file name (one path component), as displayed text. */
  type Name = string

  /** A path as its sequence of components below `/`. */
  type Path = seq<Name>

  /** The unix permission word (`PermissionsExt::mode`, a `u32`). */
  type Mode = bv32

  datatype Kind = Directory(listing: Listing) | File(mode: Mode)

  datatype Node = Node(name: Name, kind: Kind, typeKnown: bool, metadataReadable: bool)

  /** One element of the `read_dir` iterator: an entry, or an error for it. */
  datatype Item = Vanished | Present(node: Node)

  /** The outcome of `fs::read_dir` on a directory. */
  datatype Listing = Unreadable | Entries(items: seq<Item>)

  predicate IsDir(n: Node) {
    n.kind.Directory?
  }

  /**
    What `Path::is_dir` answers for the entry: it asks for the metadata
    again and reports false when that fails, so an entry whose metadata
    cannot be read is never a directory to it.
  */
  predicate PathIsDir(n: Node) {
    IsDir(n) && n.metadataReadable
  }

  /** The nodes of a listing's items, in listing order, with the errored items dropped (`filter_map(|e| e.ok())`). */
  function ReadableEntries(items: seq<Item>): (r: seq<Node>)
    ensures |r| <= |items|
  {
    if items == [] then []
    else
      var rest := ReadableEntries(items[..|items| - 1]);
      match items[|items| - 1]
      case Vanished => rest
      case Present(n) => rest + [n]
  }

  /** The readable entries are exactly the nodes of the present items. */
  lemma {:induction false} ReadableMembers(items: seq<Item>, n: Node)
    ensures n in ReadableEntries(items) <==> Present(n) in items
  {
    if items != [] {
      var init := items[..|items| - 1];
      ReadableMembers(init, n);
      assert items == init + [items[|items| - 1]];
    }
  }
}
