/**
 * The workspace tree listing of the IDE backend (`/api/tree`): the entries
 * of one directory, directories first, each group ordered by lower-cased
 * name, each entry carrying its name, its workspace-relative path, its kind
 * and, for regular files, its extension.
 */
module DirectoryTree {
  import opened Common
  import opened Paths

  /** One result of `iterdir()`: the name and the two filesystem facts the listing asks for. */
  datatype DirItem = DirItem(name: string, isDir: bool, isFile: bool)

  datatype EntryKind = Directory | File

  datatype TreeEntry = TreeEntry(name: string, path: string, kind: EntryKind, extension: Option<string>)

  /** Python's `a <= b` on strings: code-point lexicographic order. */
  predicate LexLe(a: string, b: string)
    decreases |a|
  {
    a == [] || (b != [] && (a[0] < b[0] || (a[0] == b[0] && LexLe(a[1..], b[1..]))))
  }

  lemma {:induction false} LexLeTotal(a: string, b: string)
    ensures LexLe(a, b) || LexLe(b, a)
    decreases |a|
  {
    if a != [] && b != [] && a[0] == b[0] {
      LexLeTotal(a[1..], b[1..]);
    }
  }

  lemma {:induction false} LexLeTransitive(a: string, b: string, c: string)
    requires LexLe(a, b) && LexLe(b, c)
    ensures LexLe(a, c)
    decreases |a|
  {
    if a != [] && b != [] && c != [] && a[0] == b[0] == c[0] {
      LexLeTransitive(a[1..], b[1..], c[1..]);
    }
  }

  /**
   * The sort key `(not x.is_dir(), x.name.lower())` compared as a Python
   * tuple: `False < True`, so directories come first.
   */
  predicate KeyLe(x: DirItem, y: DirItem)
  {
    if x.isDir != y.isDir then x.isDir else LexLe(Lower(x.name), Lower(y.name))
  }

  lemma KeyLeTotal(x: DirItem, y: DirItem)
    ensures KeyLe(x, y) || KeyLe(y, x)
  {
    LexLeTotal(Lower(x.name), Lower(y.name));
  }

  lemma KeyLeTransitive(x: DirItem, y: DirItem, z: DirItem)
    requires KeyLe(x, y) && KeyLe(y, z)
    ensures KeyLe(x, z)
  {
    if x.isDir == y.isDir == z.isDir {
      LexLeTransitive(Lower(x.name), Lower(y.name), Lower(z.name));
    }
  }

  predicate SortedByKey(s: seq<DirItem>)
  {
    forall i, j :: 0 <= i < j < |s| ==> KeyLe(s[i], s[j])
  }

  /** Insert one item into a key-sorted listing. */
  function Insert(x: DirItem, s: seq<DirItem>): (r: seq<DirItem>)
    requires SortedByKey(s)
    ensures SortedByKey(r)
    ensures multiset(r) == multiset(s) + multiset{x}
    decreases |s|
  {
    if s == [] then [x]
    else if KeyLe(x, s[0]) then
      assert forall j :: 0 <= j < |s| ==> KeyLe(x, s[j]) by {
        forall j | 0 <= j < |s| ensures KeyLe(x, s[j]) {
          if j > 0 { KeyLeTransitive(x, s[0], s[j]); }
        }
      }
      [x] + s
    else
      var rest := Insert(x, s[1..]);
      assert s == [s[0]] + s[1..];
      assert forall j :: 0 <= j < |rest| ==> KeyLe(s[0], rest[j]) by {
        KeyLeTotal(x, s[0]);
        forall j | 0 <= j < |rest| ensures KeyLe(s[0], rest[j]) {
          assert rest[j] in multiset(rest);
          if rest[j] != x {
            assert rest[j] in multiset(s[1..]);
            var k :| 0 <= k < |s[1..]| && s[1..][k] == rest[j];
            assert s[k + 1] == rest[j];
          }
        }
      }
      [s[0]] + rest
  }

  /** `sorted(items, key=...)`: a key-sorted permutation of the directory's items. */
  function SortItems(items: seq<DirItem>): (r: seq<DirItem>)
    ensures SortedByKey(r)
    ensures multiset(r) == multiset(items)
    ensures |r| == |items|
    decreases |items|
  {
    if items == [] then []
    else
      assert items == [items[0]] + items[1..];
      Insert(items[0], SortItems(items[1..]))
  }

  /** `PurePath.suffix`: from the last '.' of the name, unless it is the first or the last character. */
  function Suffix(name: string): (r: string)
    ensures r == "" || (|r| >= 2 && r[0] == '.' && IsSuffixOf(r, name) && |r| < |name|)
    ensures forall k :: 0 < k < |r| ==> r[k] != '.'
    ensures r != "" <==> exists i :: 0 < i < |name| - 1 && name[i] == '.' && NoDotAfter(name, i)
  {
    var i := LastDot(name);
    if 0 < i < |name| - 1 then
      assert NoDotAfter(name, i);
      name[i..]
    else
      LastDotIsUnique(name);
      ""
  }

  /** Any '.' with no '.' after it is the one `LastDot` finds. */
  lemma LastDotIsUnique(name: string)
    ensures forall j :: 0 <= j < |name| && name[j] == '.' && NoDotAfter(name, j) ==> LastDot(name) == j
  {
  }

  /** No '.' follows index `i` in `name`. */
  predicate NoDotAfter(name: string, i: int)
  {
    forall k :: 0 <= k < |name| && i < k ==> name[k] != '.'
  }

  predicate IsSuffixOf(r: string, s: string)
  {
    |r| <= |s| && s[|s| - |r|..] == r
  }

  /** `name.rfind('.')`, or -1. */
  function LastDot(name: string): (i: int)
    ensures -1 <= i < |name|
    ensures i >= 0 ==> name[i] == '.'
    ensures forall k :: i < k < |name| ==> name[k] != '.'
    decreases |name|
  {
    if name == [] then -1
    else if name[|name| - 1] == '.' then |name| - 1
    else LastDot(name[..|name| - 1])
  }

  /**
   * The entry for one item of the directory `dir` (given by its components
   * below the workspace root).
   */
  function MakeEntry(dir: seq<string>, item: DirItem): (e: TreeEntry)
    ensures e.name == item.name
    ensures e.kind == (if item.isDir then Directory else File)
    ensures e.extension.Some? <==> item.isFile
    ensures item.isFile ==> e.extension == Some(Suffix(item.name))
  {
    TreeEntry(
      item.name,
      PathString(PurePath(false, dir + [item.name])),
      if item.isDir then Directory else File,
      if item.isFile then Some(Suffix(item.name)) else None)
  }

  /**
   * An entry's `path` is the item's place relative to the workspace root:
   * parsing it gives the listed directory's components followed by the name.
   */
  lemma EntryPathRoundTrip(dir: seq<string>, item: DirItem)
    requires forall i :: 0 <= i < |dir| ==> ValidPart(dir[i])
    requires ValidPart(item.name)
    ensures ParsePath(MakeEntry(dir, item).path) == PurePath(false, dir + [item.name])
  {
    ParsePrintRoundTrip(PurePath(false, dir + [item.name]));
  }

  /** Entries built from a key-sorted listing: directories first, names ascending within a kind. */
  lemma EntriesOrdered(dir: seq<string>, sorted: seq<DirItem>, entries: seq<TreeEntry>)
    requires SortedByKey(sorted) && |entries| == |sorted|
    requires forall i :: 0 <= i < |entries| ==> entries[i] == MakeEntry(dir, sorted[i])
    ensures forall i, j :: 0 <= i < j < |entries| && entries[i].kind == File ==> entries[j].kind == File
    ensures forall i, j :: 0 <= i < j < |entries| && entries[i].kind == entries[j].kind ==>
              LexLe(Lower(entries[i].name), Lower(entries[j].name))
  {
  }

  /** Entries built from a permutation of the items: every item has its entry. */
  lemma EntriesCover(dir: seq<string>, items: seq<DirItem>, sorted: seq<DirItem>, entries: seq<TreeEntry>)
    requires multiset(sorted) == multiset(items) && |entries| == |sorted|
    requires forall i :: 0 <= i < |entries| ==> entries[i] == MakeEntry(dir, sorted[i])
    ensures forall x :: x in items ==> exists i :: 0 <= i < |entries| && entries[i] == MakeEntry(dir, x)
  {
    forall x | x in items ensures exists i :: 0 <= i < |entries| && entries[i] == MakeEntry(dir, x) {
      assert x in multiset(sorted);
      var i :| 0 <= i < |sorted| && sorted[i] == x;
      assert entries[i] == MakeEntry(dir, x);
    }
  }

  /**
   * The listing loop of `/api/tree`: the sorted items, each turned into an
   * entry and appended in order.
   */
  method ListEntries(dir: seq<string>, items: seq<DirItem>) returns (entries: seq<TreeEntry>)
    ensures |entries| == |items|
    ensures forall i :: 0 <= i < |entries| ==> entries[i] == MakeEntry(dir, SortItems(items)[i])
    ensures forall i, j :: 0 <= i < j < |entries| && entries[i].kind == File ==> entries[j].kind == File
    ensures forall i, j :: 0 <= i < j < |entries| && entries[i].kind == entries[j].kind ==>
              LexLe(Lower(entries[i].name), Lower(entries[j].name))
    ensures forall i :: 0 <= i < |entries| ==>
              (entries[i].extension.Some? <==> SortItems(items)[i].isFile)
    ensures forall x :: x in items ==> exists i :: 0 <= i < |entries| && entries[i] == MakeEntry(dir, x)
  {
    var sorted := SortItems(items);
    entries := [];
    var k := 0;
    while k < |sorted|
      invariant 0 <= k <= |sorted|
      invariant |entries| == k
      invariant forall i :: 0 <= i < k ==> entries[i] == MakeEntry(dir, sorted[i])
    {
      entries := entries + [MakeEntry(dir, sorted[k])];
      k := k + 1;
    }
    EntriesOrdered(dir, sorted, entries);
    EntriesCover(dir, items, sorted, entries);
  }
}
