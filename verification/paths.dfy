/**
 * POSIX path text as the Python front end handles it through `pathlib`:
 * splitting at '/', joining with '/', and the lexical form of a `PurePosixPath`
 * (empty and "." components dropped, ".." kept).
 */
module Paths {

  /** The path separator. */
  const SEP: char := '/'

  predicate IsAbsolute(s: string)
  {
    |s| > 0 && s[0] == SEP
  }

  /** `s.split('/')`: the pieces between separators, empty pieces included. */
  function Split(s: string): (r: seq<string>)
    ensures |r| >= 1
    ensures forall i :: 0 <= i < |r| ==> SEP !in r[i]
    decreases |s|
  {
    if s == [] then [""]
    else
      var rest := Split(s[1..]);
      if s[0] == SEP then [""] + rest
      else [[s[0]] + rest[0]] + rest[1..]
  }

  /** `'/'.join(parts)`. */
  function Join(parts: seq<string>): string
    decreases |parts|
  {
    if parts == [] then ""
    else if |parts| == 1 then parts[0]
    else parts[0] + [SEP] + Join(parts[1..])
  }

  predicate NoSeparator(parts: seq<string>)
  {
    forall i :: 0 <= i < |parts| ==> SEP !in parts[i]
  }

  lemma {:induction false} SplitNoSeparator(a: string)
    requires SEP !in a
    ensures Split(a) == [a]
    decreases |a|
  {
    if a != [] {
      SplitNoSeparator(a[1..]);
      assert [a[0]] + a[1..] == a;
    }
  }

  lemma {:induction false} SplitAtSeparator(a: string, b: string)
    requires SEP !in a
    ensures Split(a + [SEP] + b) == [a] + Split(b)
    decreases |a|
  {
    if a == [] {
      assert a + [SEP] + b == [SEP] + b;
      assert ([SEP] + b)[1..] == b;
    } else {
      SplitAtSeparator(a[1..], b);
      assert (a + [SEP] + b)[1..] == a[1..] + [SEP] + b;
      assert [a[0]] + a[1..] == a;
    }
  }

  /** Splitting a joined path gives back its pieces: no information is lost. */
  lemma {:induction false} SplitJoin(parts: seq<string>)
    requires |parts| >= 1
    requires NoSeparator(parts)
    ensures Split(Join(parts)) == parts
    decreases |parts|
  {
    if |parts| == 1 {
      SplitNoSeparator(parts[0]);
    } else {
      SplitJoin(parts[1..]);
      SplitAtSeparator(parts[0], Join(parts[1..]));
      assert [parts[0]] + parts[1..] == parts;
    }
  }

  /** Joining the pieces of a split path gives back the text. */
  lemma {:induction false} JoinSplit(s: string)
    ensures Join(Split(s)) == s
    decreases |s|
  {
    if s != [] {
      JoinSplit(s[1..]);
      var rest := Split(s[1..]);
      if s[0] == SEP {
        assert Join([""] + rest) == "" + [SEP] + Join(rest);
        assert [s[0]] + s[1..] == s;
      } else {
        var r := Split(s);
        assert r == [[s[0]] + rest[0]] + rest[1..];
        if |rest| == 1 {
          assert Join(r) == [s[0]] + rest[0];
        } else {
          assert Join(rest) == rest[0] + [SEP] + Join(rest[1..]);
          assert r[1..] == rest[1..];
          assert Join(r) == [s[0]] + rest[0] + [SEP] + Join(rest[1..]);
        }
        assert [s[0]] + s[1..] == s;
      }
    }
  }

  /**
   * The lexical form of a `PurePosixPath`: whether it is rooted, and its
   * components, none of them empty or ".".
   */
  datatype PurePath = PurePath(absolute: bool, parts: seq<string>)

  predicate ValidPart(p: string)
  {
    p != "" && p != "." && SEP !in p
  }

  predicate ValidPurePath(p: PurePath)
  {
    forall i :: 0 <= i < |p.parts| ==> ValidPart(p.parts[i])
  }

  /** The pieces of a split path that `pathlib` keeps as components. */
  function KeptParts(pieces: seq<string>): (r: seq<string>)
    requires NoSeparator(pieces)
    ensures forall i :: 0 <= i < |r| ==> ValidPart(r[i])
    ensures |r| <= |pieces|
    ensures forall i :: 0 <= i < |r| ==> r[i] in pieces
    ensures forall i :: 0 <= i < |pieces| && ValidPart(pieces[i]) ==> pieces[i] in r
  {
    if pieces == [] then []
    else
      var rest := KeptParts(pieces[1..]);
      if pieces[0] == "" || pieces[0] == "." then rest else [pieces[0]] + rest
  }

  /** `Path(s)`: parse path text into its lexical form. */
  function ParsePath(s: string): (p: PurePath)
    ensures ValidPurePath(p)
    ensures p.absolute == IsAbsolute(s)
  {
    PurePath(IsAbsolute(s), KeptParts(Split(s)))
  }

  /** `str(p)`: "." for the empty relative path, a leading "/" when rooted. */
  function PathString(p: PurePath): string
  {
    if p.absolute then [SEP] + Join(p.parts)
    else if p.parts == [] then "."
    else Join(p.parts)
  }

  /** `p.parent`: the path without its last component; the root and "." are their own parent. */
  function Parent(p: PurePath): (q: PurePath)
    ensures q.absolute == p.absolute
    ensures p.parts == [] ==> q == p
    ensures p.parts != [] ==> q.parts + [p.parts[|p.parts| - 1]] == p.parts
  {
    if p.parts == [] then p else PurePath(p.absolute, p.parts[..|p.parts| - 1])
  }

  /** `p / name` for a single valid component. */
  function Child(p: PurePath, name: string): PurePath
  {
    PurePath(p.absolute, p.parts + [name])
  }

  /** Joined pieces followed by a separator and more text split back into those pieces first. */
  lemma {:induction false} SplitJoinConcat(parts: seq<string>, b: string)
    requires |parts| >= 1 && NoSeparator(parts)
    ensures Split(Join(parts) + [SEP] + b) == parts + Split(b)
    decreases |parts|
  {
    if |parts| == 1 {
      SplitAtSeparator(parts[0], b);
    } else {
      var rest := Join(parts[1..]) + [SEP] + b;
      assert Join(parts) + [SEP] + b == parts[0] + [SEP] + rest;
      SplitAtSeparator(parts[0], rest);
      SplitJoinConcat(parts[1..], b);
      assert parts == [parts[0]] + parts[1..];
    }
  }

  /** Splitting at a separator between two texts splits each text on its own. */
  lemma SplitConcat(a: string, b: string)
    ensures Split(a + [SEP] + b) == Split(a) + Split(b)
  {
    JoinSplit(a);
    SplitJoinConcat(Split(a), b);
  }

  /** Keeping components commutes with concatenation: `KeptParts` is an order-preserving filter. */
  lemma {:induction false} KeptPartsAppend(a: seq<string>, b: seq<string>)
    requires NoSeparator(a) && NoSeparator(b)
    ensures NoSeparator(a + b)
    ensures KeptParts(a + b) == KeptParts(a) + KeptParts(b)
    decreases |a|
  {
    assert NoSeparator(a + b) by {
      forall i | 0 <= i < |a + b| ensures SEP !in (a + b)[i] {
        if i < |a| { assert (a + b)[i] == a[i]; } else { assert (a + b)[i] == b[i - |a|]; }
      }
    }
    if a == [] {
      assert a + b == b;
    } else {
      KeptPartsAppend(a[1..], b);
      assert (a + b)[1..] == a[1..] + b;
      assert (a + b)[0] == a[0];
    }
  }

  /** A single segment is one component, unless it is empty or ".". */
  lemma ParseSegment(x: string)
    requires SEP !in x
    ensures ParsePath(x) == PurePath(false, if x == "" || x == "." then [] else [x])
  {
    SplitNoSeparator(x);
    assert KeptParts([x]) == (if x == "" || x == "." then [] else [x]) + KeptParts([]);
  }

  /**
   * `Path(a + "/" + b)`: the components of `a` followed by those of `b`; the
   * result is rooted when `a` is, or when `a` is empty.
   */
  lemma ParseConcat(a: string, b: string)
    ensures ParsePath(a + [SEP] + b).parts == ParsePath(a).parts + ParsePath(b).parts
    ensures ParsePath(a + [SEP] + b).absolute == (a == "" || ParsePath(a).absolute)
  {
    SplitConcat(a, b);
    KeptPartsAppend(Split(a), Split(b));
    if a != "" {
      assert (a + [SEP] + b)[0] == a[0];
    }
  }

  lemma {:induction false} KeptPartsOfValid(parts: seq<string>)
    requires NoSeparator(parts)
    requires forall i :: 0 <= i < |parts| ==> ValidPart(parts[i])
    ensures KeptParts(parts) == parts
    decreases |parts|
  {
    if parts != [] {
      KeptPartsOfValid(parts[1..]);
      assert [parts[0]] + parts[1..] == parts;
    }
  }

  /**
   * `Path(str(p)) == p`: printing a path and parsing it again gives the same
   * path, so handing `str(storage_path)` to a backend loses nothing.
   */
  lemma ParsePrintRoundTrip(p: PurePath)
    requires ValidPurePath(p)
    ensures ParsePath(PathString(p)) == p
  {
    if p.absolute {
      if p.parts == [] {
        assert PathString(p) == [SEP];
        assert [SEP][1..] == [] && Split([]) == [""];
        assert Split([SEP]) == ["", ""];
        assert KeptParts([""]) == KeptParts([]) == [];
        assert KeptParts(["", ""]) == KeptParts(["", ""][1..]);
      } else {
        SplitJoin(p.parts);
        assert PathString(p) == "" + [SEP] + Join(p.parts);
        SplitAtSeparator("", Join(p.parts));
        assert Split(PathString(p)) == [""] + p.parts;
        KeptPartsOfValid(p.parts);
      }
    } else if p.parts == [] {
      assert "."[1..] == [] && Split([]) == [""];
      assert ['.'] + "" == ".";
      assert Split(".") == ["."];
      assert KeptParts(["."]) == KeptParts([]);
    } else {
      SplitJoin(p.parts);
      KeptPartsOfValid(p.parts);
      var s := Join(p.parts);
      assert Split(s)[0] == p.parts[0] != "";
      assert s != [] && s[0] != SEP;
    }
  }
}
