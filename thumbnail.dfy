/** The helpers of the jpegshow command (jpeg/cmd/mainJpeg.go): the name of
    the thumbnail file extracted from a picture, and the pictures a directory
    walk finds. */
module Thumbnails {
  import opened Outcomes
  import opened Text

  const ThumbnailPrefix := "Thumbnail-"

  /** A path with its last element prefixed by `p`: the directory part, up to
      and including the last '/', is kept. */
  function PrefixLast(path: string, p: string): string {
    var i := LastIndex(path, '/');
    path[..i + 1] + (p + path[i + 1..])
  }

  /** Joining one more piece adds the separator and the piece. */
  lemma JoinSnoc(front: seq<string>, x: string, c: char)
    requires front != []
    ensures Join(front + [x], c) == Join(front, c) + [c] + x
  {
    assert (front + [x])[..|front|] == front;
  }

  /** A split ends with the text after the last separator. */
  lemma SplitSnoc(path: string, c: char)
    requires 0 <= LastIndex(path, c)
    ensures Split(path, c) == Split(path[..LastIndex(path, c)], c) + [path[LastIndex(path, c) + 1..]]
  {
  }

  lemma UpdateLast(front: seq<string>, x: string, y: string)
    ensures (front + [x])[|front| := y] == front + [y]
  {
  }

  /** Replacing the last piece of a split by `p` + that piece and joining again
      prefixes the text after the last separator. */
  lemma JoinPrefixedLast(path: string, p: string)
    ensures var s := Split(path, '/');
      Join(s[|s| - 1 := p + s[|s| - 1]], '/') == PrefixLast(path, p)
  {
    var i := LastIndex(path, '/');
    var last := p + path[i + 1..];
    if 0 <= i {
      var front := Split(path[..i], '/');
      SplitSnoc(path, '/');
      UpdateLast(front, path[i + 1..], last);
      JoinSnoc(front, last, '/');
      JoinSplit(path[..i], '/');
      assert path[..i + 1] == path[..i] + ['/'];
    } else {
      assert path[..0] == "" && path[0..] == path;
    }
  }

  /** thumbnailName: split on '/', prefix the last piece, join the pieces again.
      `prefix` is the value of the package variable ThumbnailPrefix. */
  method ThumbnailName(fname: string, prefix: string) returns (fname2: string)
    ensures fname2 == PrefixLast(fname, prefix)
  {
    var separator := '/';
    var s := Split(fname, separator);
    var size := |s|;
    s := s[size - 1 := prefix + s[size - 1]];
    fname2 := "";
    var sep := "";
    for i := 0 to |s|
      invariant sep == if i == 0 then "" else [separator]
      invariant fname2 == Join(s[..i], separator)
    {
      assert s[..i + 1][..i] == s[..i];
      fname2 := fname2 + sep + s[i];
      sep := [separator];
    }
    assert s[..|s|] == s;
    JoinPrefixedLast(fname, prefix);
  }

  /** A name without '/' just gets the prefix. */
  lemma PrefixLastPlainName(fname: string, p: string)
    requires '/' !in fname
    ensures PrefixLast(fname, p) == p + fname
  {
    assert fname[0..] == fname;
  }

  /** The directory part is kept, the last element is prefixed and the length
      grows by the prefix. */
  lemma PrefixLastShape(path: string, p: string)
    ensures var r := PrefixLast(path, p); var i := LastIndex(path, '/');
      && r[..i + 1] == path[..i + 1]
      && r[i + 1..] == p + path[i + 1..]
      && |r| == |path| + |p|
  {
    var i := LastIndex(path, '/');
    var head := path[..i + 1];
    var tail := p + path[i + 1..];
    assert PrefixLast(path, p) == head + tail;
  }

  lemma AfterLastIndex(s: string, c: char)
    ensures c !in s[LastIndex(s, c) + 1..]
  {
    if LastIndex(s, c) < 0 {
      assert s[0..] == s;
    }
  }

  lemma NoneInAppend(a: string, b: string, c: char)
    requires c !in a && c !in b
    ensures c !in a + b
  {
  }

  /** Inserting text without `c` right after a `c` (or at the start) keeps the
      last `c` where it is. */
  lemma InsertAfterLast(head: string, rest: string, c: char, p: string)
    requires c !in p && c !in rest
    requires head == [] || head[|head| - 1] == c
    ensures LastIndex(head + (p + rest), c) == |head| - 1
  {
    NoneInAppend(p, rest, c);
    LastIndexOfAppend(head, p + rest, |head| - 1, c);
  }

  /** Appending text without `c` does not move the last `c`. */
  lemma LastIndexOfAppend(a: string, b: string, i: int, c: char)
    requires -1 <= i < |a| && (0 <= i ==> a[i] == c) && c !in a[i + 1..]
    requires c !in b
    ensures LastIndex(a + b, c) == i
  {
    var ab := a + b;
    forall k | i < k < |ab|
      ensures ab[k] != c
    {
      if k < |a| {
        assert ab[k] == a[i + 1..][k - i - 1];
      } else {
        assert ab[k] == b[k - |a|];
      }
    }
    LastIndexUnique(ab, c, i);
  }

  /** A prefix without '/' leaves the last '/' where it is. */
  lemma PrefixLastSlash(path: string, p: string)
    requires '/' !in p
    ensures LastIndex(PrefixLast(path, p), '/') == LastIndex(path, '/')
  {
    var i := LastIndex(path, '/');
    var head, rest := path[..i + 1], path[i + 1..];
    AfterLastIndex(path, '/');
    assert head == [] || head[|head| - 1] == '/';
    InsertAfterLast(head, rest, '/', p);
    assert PrefixLast(path, p) == head + (p + rest);
  }

  /** A prefix without '/' leaves as many '/' as there were. */
  lemma PrefixLastSlashCount(path: string, p: string)
    requires '/' !in p
    ensures multiset(PrefixLast(path, p))['/'] == multiset(path)['/']
  {
    var i := LastIndex(path, '/');
    InsertKeepsCount(path[..i + 1], path[i + 1..], '/', p);
    assert path[..i + 1] + path[i + 1..] == path;
  }

  /** Inserting text without `c` keeps the number of `c`. */
  lemma InsertKeepsCount(a: string, b: string, c: char, p: string)
    requires c !in p
    ensures multiset(a + (p + b))[c] == multiset(a + b)[c]
  {
  }

  /** What the walk callback of find sees for one path: its name and the error
      WalkDir reports for it, if any. */
  datatype WalkEntry = WalkEntry(path: string, name: string, err: Option<string>)

  /** The filter of find: exactly the extension (case matters) and not a thumbnail. */
  predicate Kept(e: WalkEntry, ext: string, prefix: string) {
    Ext(e.name) == ext && !HasPrefix(e.name, prefix)
  }

  /** The paths find collects from the entries in walk order: the kept ones,
      up to the first error, where the callback stops the walk. */
  function Found(entries: seq<WalkEntry>, ext: string, prefix: string): seq<string> {
    if entries == [] || entries[0].err.Some? then []
    else (if Kept(entries[0], ext, prefix) then [entries[0].path] else []) + Found(entries[1..], ext, prefix)
  }

  lemma FoundStep(entries: seq<WalkEntry>, ext: string, prefix: string, i: int)
    requires 0 <= i < |entries|
    ensures Found(entries[i..], ext, prefix) ==
      if entries[i].err.Some? then []
      else (if Kept(entries[i], ext, prefix) then [entries[i].path] else []) + Found(entries[i + 1..], ext, prefix)
  {
    assert entries[i..][1..] == entries[i + 1..];
  }

  lemma FoundAdvance(entries: seq<WalkEntry>, ext: string, prefix: string, i: int, before: seq<string>, a: seq<string>)
    requires 0 <= i < |entries| && entries[i].err.None?
    requires before + Found(entries[i..], ext, prefix) == Found(entries, ext, prefix)
    requires a == before + if Kept(entries[i], ext, prefix) then [entries[i].path] else []
    ensures a + Found(entries[i + 1..], ext, prefix) == Found(entries, ext, prefix)
  {
    FoundStep(entries, ext, prefix, i);
    var head := if Kept(entries[i], ext, prefix) then [entries[i].path] else [];
    Associative(before, head, Found(entries[i + 1..], ext, prefix));
  }

  /** At an error, or at the end, nothing more is found. */
  lemma FoundStop(entries: seq<WalkEntry>, ext: string, prefix: string, i: int, a: seq<string>)
    requires 0 <= i <= |entries| && (i < |entries| ==> entries[i].err.Some?)
    requires a + Found(entries[i..], ext, prefix) == Found(entries, ext, prefix)
    ensures a == Found(entries, ext, prefix)
  {
    assert Found(entries[i..], ext, prefix) == [];
    assert a + [] == a;
  }

  lemma Associative(x: seq<string>, y: seq<string>, z: seq<string>)
    ensures (x + y) + z == x + (y + z)
  {
  }

  /** find over the entries filepath.WalkDir delivers, in order; `prefix` is
      the value of the package variable ThumbnailPrefix. */
  method Find(entries: seq<WalkEntry>, ext: string, prefix: string) returns (a: seq<string>)
    ensures a == Found(entries, ext, prefix)
  {
    a := [];
    var i := 0;
    assert entries[0..] == entries;
    while i < |entries|
      invariant 0 <= i <= |entries|
      invariant a + Found(entries[i..], ext, prefix) == Found(entries, ext, prefix)
    {
      var e := entries[i];
      if e.err.Some? {
        FoundStop(entries, ext, prefix, i, a);
        return;
      }
      ghost var before := a;
      if Ext(e.name) == ext {
        if !HasPrefix(e.name, prefix) {
          a := a + [e.path];
        }
      }
      FoundAdvance(entries, ext, prefix, i, before, a);
      i := i + 1;
    }
    FoundStop(entries, ext, prefix, i, a);
  }

  /** The walk reaches entry `j`: no error up to and including it. */
  predicate Reached(entries: seq<WalkEntry>, j: int)
    requires 0 <= j < |entries|
  {
    forall k :: 0 <= k <= j ==> entries[k].err.None?
  }

  /** Every entry the walk reaches and the filter keeps is found. */
  lemma {:induction false} FoundComplete(entries: seq<WalkEntry>, ext: string, prefix: string, j: int)
    requires 0 <= j < |entries| && Reached(entries, j) && Kept(entries[j], ext, prefix)
    ensures entries[j].path in Found(entries, ext, prefix)
    decreases j
  {
    var rest := entries[1..];
    var head := if Kept(entries[0], ext, prefix) then [entries[0].path] else [];
    assert entries[0].err.None?;
    assert Found(entries, ext, prefix) == head + Found(rest, ext, prefix);
    if 0 < j {
      assert Reached(rest, j - 1) by {
        forall k | 0 <= k <= j - 1
          ensures rest[k].err.None?
        {
          assert rest[k] == entries[k + 1];
        }
      }
      assert rest[j - 1] == entries[j];
      FoundComplete(rest, ext, prefix, j - 1);
    }
  }

  /** Everything found is the path of an entry the walk reaches and the filter
      keeps. */
  lemma {:induction false} FoundSound(entries: seq<WalkEntry>, ext: string, prefix: string, path: string)
    requires path in Found(entries, ext, prefix)
    ensures exists j :: 0 <= j < |entries| && Reached(entries, j) && Kept(entries[j], ext, prefix) && entries[j].path == path
    decreases |entries|
  {
    var rest := entries[1..];
    var head := if Kept(entries[0], ext, prefix) then [entries[0].path] else [];
    assert Found(entries, ext, prefix) == head + Found(rest, ext, prefix);
    if path in head {
      assert Reached(entries, 0);
    } else {
      FoundSound(rest, ext, prefix, path);
      var j :| 0 <= j < |rest| && Reached(rest, j) && Kept(rest[j], ext, prefix) && rest[j].path == path;
      assert entries[j + 1] == rest[j];
      assert Reached(entries, j + 1) by {
        forall k | 0 <= k <= j + 1
          ensures entries[k].err.None?
        {
          if 0 < k {
            assert entries[k] == rest[k - 1];
          }
        }
      }
    }
  }

  /** The filter matches extensions exactly and skips thumbnails. */
  lemma KeptExamples()
    ensures Kept(WalkEntry("d/a.jpg", "a.jpg", None), ".jpg", ThumbnailPrefix)
    ensures !Kept(WalkEntry("d/A.JPG", "A.JPG", None), ".jpg", ThumbnailPrefix)
    ensures !Kept(WalkEntry("d/Thumbnail-a.jpg", "Thumbnail-a.jpg", None), ".jpg", ThumbnailPrefix)
  {
    LastIndexUnique("a.jpg", '.', 1);
    LastIndexUnique("A.JPG", '.', 1);
    assert "Thumbnail-a.jpg"[..10] == ThumbnailPrefix;
  }
}
