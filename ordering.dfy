/**
  The sibling order: `sort_by_key` with the key `(is_not_dir, file_name)`,
  where an entry whose file type cannot be read counts as not a directory.
  Names compare as sequences, element by element, a proper prefix first.
*/
module Ordering {
  import opened FileSystem

  /** Whether `a` is at most `b` in lexicographic order. */
  predicate NameLe(a: Name, b: Name) {
    a == [] || (b != [] && (a[0] < b[0] || (a[0] == b[0] && NameLe(a[1..], b[1..]))))
  }

  /** The first component of the sort key is false exactly for entries that sort as directories. */
  predicate SortsAsDir(n: Node) {
    n.typeKnown && IsDir(n)
  }

  /** Tuple order on `(!SortsAsDir(a), a.name)` against `(!SortsAsDir(b), b.name)`, with `false < true`. */
  predicate KeyLe(a: Node, b: Node) {
    if SortsAsDir(a) != SortsAsDir(b) then SortsAsDir(a) else NameLe(a.name, b.name)
  }

  predicate Sorted(s: seq<Node>) {
    forall i, j {:trigger KeyLe(s[i], s[j])} :: 0 <= i < j < |s| ==> KeyLe(s[i], s[j])
  }

  lemma {:induction false} NameLeReflexive(a: Name)
    ensures NameLe(a, a)
  {
    if a != [] {
      NameLeReflexive(a[1..]);
    }
  }

  lemma {:induction false} NameLeTotal(a: Name, b: Name)
    ensures NameLe(a, b) || NameLe(b, a)
  {
    if a != [] && b != [] && a[0] == b[0] {
      NameLeTotal(a[1..], b[1..]);
    }
  }

  lemma {:induction false} NameLeTransitive(a: Name, b: Name, c: Name)
    requires NameLe(a, b) && NameLe(b, c)
    ensures NameLe(a, c)
  {
    if a != [] && a[0] == b[0] && b[0] == c[0] {
      NameLeTransitive(a[1..], b[1..], c[1..]);
    }
  }

  lemma {:induction false} NameLeAntisymmetric(a: Name, b: Name)
    requires NameLe(a, b) && NameLe(b, a)
    ensures a == b
  {
    if a != [] {
      NameLeAntisymmetric(a[1..], b[1..]);
      assert a == [a[0]] + a[1..] && b == [b[0]] + b[1..];
    }
  }

  lemma KeyLeTotal(a: Node, b: Node)
    ensures KeyLe(a, b) || KeyLe(b, a)
  {
    NameLeTotal(a.name, b.name);
  }

  lemma KeyLeTransitive(a: Node, b: Node, c: Node)
    requires KeyLe(a, b) && KeyLe(b, c)
    ensures KeyLe(a, c)
  {
    if SortsAsDir(a) == SortsAsDir(b) == SortsAsDir(c) {
      NameLeTransitive(a.name, b.name, c.name);
    }
  }

  /** Putting a lower bound of a sorted sequence in front keeps it sorted. */
  lemma PrependSorted(n: Node, s: seq<Node>)
    requires Sorted(s)
    requires forall m :: m in s ==> KeyLe(n, m)
    ensures Sorted([n] + s)
  {
    var r := [n] + s;
    forall i, j | 0 <= i < j < |r| ensures KeyLe(r[i], r[j]) {
      if i == 0 { assert r[j] in s; }
    }
  }

  /** Inserts `n` before the first element it does not follow, keeping earlier equal keys first. */
  function Insert(n: Node, s: seq<Node>): seq<Node> {
    if s == [] || KeyLe(n, s[0]) then [n] + s else [s[0]] + Insert(n, s[1..])
  }

  /** Inserting adds exactly `n`. */
  lemma {:induction false} InsertPermutation(n: Node, s: seq<Node>)
    ensures multiset(Insert(n, s)) == multiset(s) + multiset{n}
  {
    if s != [] && !KeyLe(n, s[0]) {
      InsertPermutation(n, s[1..]);
      assert s == [s[0]] + s[1..];
    }
  }

  /** Inserting into a sorted sequence keeps it sorted. */
  lemma {:induction false} InsertSorted(n: Node, s: seq<Node>)
    requires Sorted(s)
    ensures Sorted(Insert(n, s))
  {
    if s == [] || KeyLe(n, s[0]) {
      forall m | m in s ensures KeyLe(n, m) {
        var j :| 0 <= j < |s| && s[j] == m;
        if j > 0 { KeyLeTransitive(n, s[0], m); }
      }
      PrependSorted(n, s);
    } else {
      TailSorted(s);
      InsertSorted(n, s[1..]);
      InsertPermutation(n, s[1..]);
      var tail := Insert(n, s[1..]);
      assert s == [s[0]] + s[1..];
      forall m | m in tail ensures KeyLe(s[0], m) {
        assert m in multiset(tail);
        if m == n { KeyLeTotal(n, s[0]); } else { assert m in s[1..]; }
      }
      PrependSorted(s[0], tail);
    }
  }

  /** `entries.sort_by_key(...)`: a stable sort by the key. */
  function SortEntries(s: seq<Node>): seq<Node> {
    if s == [] then [] else Insert(s[0], SortEntries(s[1..]))
  }

  /** The sort's result is a permutation of its input. */
  lemma {:induction false} SortEntriesPermutation(s: seq<Node>)
    ensures multiset(SortEntries(s)) == multiset(s)
  {
    if s != [] {
      SortEntriesPermutation(s[1..]);
      InsertPermutation(s[0], SortEntries(s[1..]));
      assert s == [s[0]] + s[1..];
    }
  }

  /** The sort's result is ordered by the key. */
  lemma {:induction false} SortEntriesSorted(s: seq<Node>)
    ensures Sorted(SortEntries(s))
  {
    if s != [] {
      SortEntriesSorted(s[1..]);
      InsertSorted(s[0], SortEntries(s[1..]));
    }
  }

  /** Directories (by file type) come first; within each group names ascend; unknown types go with the files. */
  lemma SortedSiblingOrder(s: seq<Node>, i: int, j: int)
    requires 0 <= i < j < |SortEntries(s)|
    ensures var r := SortEntries(s);
      && (SortsAsDir(r[j]) ==> SortsAsDir(r[i]))
      && (SortsAsDir(r[i]) == SortsAsDir(r[j]) ==> NameLe(r[i].name, r[j].name))
      && (!r[i].typeKnown ==> !SortsAsDir(r[j]))
  {
    var r := SortEntries(s);
    SortEntriesSorted(s);
    assert KeyLe(r[i], r[j]);
  }

  predicate DistinctNames(s: seq<Node>) {
    forall i, j :: 0 <= i < j < |s| ==> s[i].name != s[j].name
  }

  /** The first elements of two sorted arrangements of the same distinctly named entries agree. */
  lemma SortedHeadsAgree(a: seq<Node>, b: seq<Node>)
    requires Sorted(a) && Sorted(b) && DistinctNames(b)
    requires multiset(a) == multiset(b) && a != []
    ensures b != [] && a[0] == b[0]
  {
    assert a[0] in multiset(b) && b[0] in multiset(a);
    var i :| 0 <= i < |b| && b[i] == a[0];
    var j :| 0 <= j < |a| && a[j] == b[0];
    NameLeReflexive(a[0].name);
    NameLeReflexive(b[0].name);
    assert KeyLe(b[0], a[0]) by { if i > 0 { assert KeyLe(b[0], b[i]); } }
    assert KeyLe(a[0], b[0]) by { if j > 0 { assert KeyLe(a[0], a[j]); } }
    NameLeAntisymmetric(a[0].name, b[0].name);
    assert i == 0;
  }

  /** Dropping the first element keeps a sequence sorted. */
  lemma TailSorted(a: seq<Node>)
    requires a != [] && Sorted(a)
    ensures Sorted(a[1..])
  {
    forall i, j | 0 <= i < j < |a| - 1 ensures KeyLe(a[1..][i], a[1..][j]) {
      assert KeyLe(a[i + 1], a[j + 1]);
    }
  }

  lemma TailMultiset(a: seq<Node>, b: seq<Node>)
    requires a != [] && b != [] && a[0] == b[0] && multiset(a) == multiset(b)
    ensures multiset(a[1..]) == multiset(b[1..])
  {
    assert a == [a[0]] + a[1..] && b == [b[0]] + b[1..];
    assert multiset(a) == multiset([a[0]] + a[1..]) == multiset{a[0]} + multiset(a[1..]);
    assert multiset(b) == multiset([b[0]] + b[1..]) == multiset{b[0]} + multiset(b[1..]);
    assert multiset(a[1..]) == multiset(a) - multiset{a[0]};
  }

  /**
    Two sorted arrangements of the same entries with distinct names are
    equal: within one directory the order is fully determined by the key.
  */
  lemma {:induction false} SortedUnique(a: seq<Node>, b: seq<Node>)
    requires Sorted(a) && Sorted(b) && DistinctNames(b)
    requires multiset(a) == multiset(b)
    ensures a == b
  {
    if a == [] {
      assert |b| == |multiset(b)| == 0;
    } else {
      SortedHeadsAgree(a, b);
      TailMultiset(a, b);
      TailSorted(a);
      TailSorted(b);
      assert DistinctNames(b[1..]) by {
        forall i, j | 0 <= i < j < |b| - 1 ensures b[1..][i].name != b[1..][j].name {
          assert b[1..][i] == b[i + 1] && b[1..][j] == b[j + 1];
        }
      }
      SortedUnique(a[1..], b[1..]);
      assert a == [a[0]] + a[1..] && b == [b[0]] + b[1..];
    }
  }
}
