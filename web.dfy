/** The index arithmetic and text helpers behind the catalogue's web pages
    (web.go): carousel neighbours, the last path component, bounded text,
    keys ordered by frequency, and the links of a directory listing. */
module Web {
  import opened Outcomes
  import opened Text

  /** indexPrev: one step back in a carousel of `length` images. */
  function IndexPrev(i: int, length: int): (r: int)
    ensures 0 <= i < length ==> 0 <= r < length && r == (i + length - 1) % length
  {
    if i - 1 < 0 then length - 1 else i - 1
  }

  /** indexNext: one step forward in a carousel of `length` images. */
  function IndexNext(i: int, length: int): (r: int)
    ensures 0 <= i < length ==> 0 <= r < length && r == (i + 1) % length
  {
    if i + 1 >= length then 0 else i + 1
  }

  /** Forward undoes backward and backward undoes forward. */
  lemma PrevNextInverse(i: int, length: int)
    requires 0 <= i < length
    ensures IndexNext(IndexPrev(i, length), length) == i
    ensures IndexPrev(IndexNext(i, length), length) == i
  {
  }

  /** lastDir: the final element of a slash-separated path. */
  function LastDir(path: string): (r: string)
    ensures '/' !in r
  {
    var s := Split(path, '/');
    if |s| < 2 then
      assert s[0] == path;
      path
    else s[|s| - 1]
  }

  /** The final element is what follows the last slash, the whole path when
      there is none; it is the path itself exactly when the path has no slash. */
  lemma LastDirAfterLastSlash(path: string)
    ensures LastDir(path) == path[LastIndex(path, '/') + 1..]
    ensures path[..LastIndex(path, '/') + 1] + LastDir(path) == path
    ensures LastDir(path) == path <==> '/' !in path
  {
    SplitLast(path, '/');
    var i := LastIndex(path, '/');
    assert path == path[..i + 1] + path[i + 1..];
  }

  lemma LastDirExamples()
    ensures LastDir("my") == "my"
    ensures LastDir("my/dir") == "dir"
  {
    LastDirAfterLastSlash("my");
    LastDirAfterLastSlash("my/dir");
    var p := "my/dir";
    assert p[2] == '/' && p[3..] == "dir" && '/' !in "dir";
    assert LastIndex(p, '/') == 2;
  }

  /** x60: the text cut to at most 60 bytes. */
  function X60(s: string): (r: string)
    ensures |r| == if |s| <= 60 then |s| else 60
    ensures HasPrefix(s, r)
  {
    if |s| > 60 then s[..60] else s
  }

  /** Go's `counts[k]`: 0 for a missing key. */
  function CountOf(counts: map<string, int>, k: string): int {
    if k in counts then counts[k] else 0
  }

  /** No key has a higher count than a key before it. */
  predicate ByCountDescending(keys: seq<string>, counts: map<string, int>) {
    forall i, j :: 0 <= i < j < |keys| ==> CountOf(counts, keys[i]) >= CountOf(counts, keys[j])
  }

  /** The keys of a map in an order of Go's choosing (map iteration order is unspecified). */
  method MapKeys(counts: map<string, int>) returns (keys: seq<string>)
    ensures multiset(keys) == multiset(counts.Keys)
  {
    keys := [];
    var rest := counts.Keys;
    while rest != {}
      invariant rest <= counts.Keys
      invariant multiset(keys) == multiset(counts.Keys - rest)
      decreases rest
    {
      var k :| k in rest;
      assert counts.Keys - (rest - {k}) == (counts.Keys - rest) + {k};
      keys := keys + [k];
      rest := rest - {k};
    }
  }

  method Swap(a: array<string>, i: nat, j: nat)
    requires i < a.Length && j < a.Length
    modifies a
    ensures a[..] == old(a[..])[i := old(a[j])][j := old(a[i])]
    ensures multiset(a[..]) == multiset(old(a[..]))
  {
    a[i], a[j] := a[j], a[i];
  }

  /** One insertion step: moves a[i] back past the keys with smaller counts. */
  method Sink(a: array<string>, counts: map<string, int>, i: nat)
    requires i < a.Length && ByCountDescending(a[..i], counts)
    modifies a
    ensures multiset(a[..]) == multiset(old(a[..]))
    ensures ByCountDescending(a[..i + 1], counts)
  {
    var j := i;
    while 0 < j && CountOf(counts, a[j - 1]) < CountOf(counts, a[j])
      invariant 0 <= j <= i
      invariant multiset(a[..]) == multiset(old(a[..]))
      invariant forall k, l :: 0 <= k < l <= i && k != j && l != j ==> CountOf(counts, a[k]) >= CountOf(counts, a[l])
      invariant forall l :: j < l <= i ==> CountOf(counts, a[j]) > CountOf(counts, a[l])
    {
      Swap(a, j - 1, j);
      j := j - 1;
    }
  }

  /** sort.Slice on the keys, by descending count (insertion sort by adjacent swaps;
      sort.Slice is not stable, so keys of equal count may come in any order). */
  method SortByCount(a: array<string>, counts: map<string, int>)
    modifies a
    ensures multiset(a[..]) == multiset(old(a[..]))
    ensures ByCountDescending(a[..], counts)
  {
    for i := 0 to a.Length
      invariant multiset(a[..]) == multiset(old(a[..]))
      invariant ByCountDescending(a[..i], counts)
    {
      Sink(a, counts, i);
    }
    assert a[..a.Length] == a[..];
  }

  /** aMapKeysSortedByFreguency: every key exactly once, by non-increasing count. */
  method KeysByFrequency(counts: map<string, int>) returns (keys: seq<string>)
    ensures multiset(keys) == multiset(counts.Keys)
    ensures ByCountDescending(keys, counts)
  {
    var unsorted := MapKeys(counts);
    var a := new string[|unsorted|](i requires 0 <= i < |unsorted| => unsorted[i]);
    assert a[..] == unsorted;
    SortByCount(a, counts);
    keys := a[..];
  }

  /** Every key is listed, and none twice. */
  lemma KeysListedOnce(keys: seq<string>, counts: map<string, int>)
    requires multiset(keys) == multiset(counts.Keys)
    ensures forall k :: k in counts <==> k in keys
    ensures forall i, j :: 0 <= i < j < |keys| ==> keys[i] != keys[j]
  {
    forall k
      ensures k in counts <==> k in keys
    {
      assert k in keys <==> k in multiset(keys);
    }
    forall i, j | 0 <= i < j < |keys|
      ensures keys[i] != keys[j]
    {
      CountTwo(keys, i, j);
    }
  }

  lemma CountTwo(s: seq<string>, i: nat, j: nat)
    requires i < j < |s|
    ensures s[i] == s[j] ==> multiset(s)[s[i]] >= 2
  {
    assert s == s[..j] + s[j..];
    assert s[i] in s[..j];
    assert s[j] in s[j..];
  }

  /** The position of the first `x` in `s`, -1 when there is none. */
  function FirstIndex(s: seq<string>, x: string): (i: int)
    ensures -1 <= i < |s|
    ensures i == -1 <==> x !in s
    ensures 0 <= i ==> s[i] == x && x !in s[..i]
  {
    if s == [] then -1
    else if s[0] == x then 0
    else
      var j := FirstIndex(s[1..], x);
      if j < 0 then -1
      else
        assert s[..j + 1] == [s[0]] + s[1..][..j];
        j + 1
  }

  /** The neighbours pageImageIndex links to: the carousel neighbours of the
      first occurrence of `file`, or None (a 404 page) when it is not listed. */
  function Neighbours(files: seq<string>, file: string): Option<(string, string)>
    requires files != []
  {
    var i := FirstIndex(files, file);
    if i < 0 then None
    else Some((files[IndexPrev(i, |files|)], files[IndexNext(i, |files|)]))
  }

  /** The neighbour search of pageImageIndex over the comma-separated list. */
  method ImageNeighbours(filesParam: string, file: string) returns (r: Option<(string, string)>)
    ensures r == Neighbours(Split(filesParam, ','), file)
  {
    var files := Split(filesParam, ',');
    var i := 0;
    while i < |files| && files[i] != file
      invariant 0 <= i <= |files|
      invariant file !in files[..i]
    {
      assert files[..i + 1] == files[..i] + [files[i]];
      i := i + 1;
    }
    if i < |files| {
      assert FirstIndex(files, file) == i;
      r := Some((files[IndexPrev(i, |files|)], files[IndexNext(i, |files|)]));
    } else {
      assert files[..i] == files;
      r := None;
    }
  }

  /** In a carousel of two or more distinct images, the neighbours of an image
      are the images at the previous and the next index, wrapping around, and
      neither of them is the image itself. */
  lemma NeighboursWrapAround(files: seq<string>, i: nat)
    requires 2 <= |files| && i < |files|
    requires forall k, l :: 0 <= k < l < |files| ==> files[k] != files[l]
    ensures Neighbours(files, files[i]) ==
      Some((files[IndexPrev(i, |files|)], files[IndexNext(i, |files|)]))
    ensures Neighbours(files, files[i]).value.0 != files[i]
    ensures Neighbours(files, files[i]).value.1 != files[i]
  {
    var j := FirstIndex(files, files[i]);
    assert j == i;
  }

  /** The list is never empty: an empty parameter still splits into one name. */
  lemma FileListNeverEmpty(filesParam: string)
    ensures |Split(filesParam, ',')| >= 1
  {
  }

  function Anchor(href: string, text: string): string {
    "<a href=\"" + href + "\">" + text + "</a>"
  }

  /** The (prev, next) pair prevNextPathLinks returns; `dirs` is None when the
      stored record did not decode. */
  function PathLinks(dirName: string, dirs: Option<seq<string>>): (string, string) {
    if dirName == "./" then (" ", " ")
    else if dirs.None? then ("-", "-")
    else
      var ds := dirs.value;
      var i := FirstIndex(ds, dirName);
      if i < 0 then ("|", "|")
      else
        (if 0 <= i - 1 then Anchor(ds[i - 1], "&#x21D0; - ") else "|",
         if i + 1 < |ds| then Anchor(ds[i + 1], " - &#x21D2;") else "|")
  }

  /** prevNextPathLinks: the links to the sibling directories before and after
      `dirName` in the parent's list. */
  method PrevNextPathLinks(dirName: string, dirs: Option<seq<string>>) returns (prev: string, next: string)
    ensures (prev, next) == PathLinks(dirName, dirs)
  {
    prev, next := "|", "|";
    if dirName == "./" {
      return " ", " ";
    }
    if dirs.None? {
      return "-", "-";
    }
    var ds := dirs.value;
    for i := 0 to |ds|
      invariant dirName !in ds[..i]
    {
      if ds[i] == dirName {
        assert FirstIndex(ds, dirName) == i;
        if 0 <= i - 1 {
          prev := Anchor(ds[i - 1], "&#x21D0; - ");
        }
        if i + 1 < |ds| {
          next := Anchor(ds[i + 1], " - &#x21D2;");
        }
        return;
      }
      assert ds[..i + 1] == ds[..i] + [ds[i]];
    }
    assert ds[..|ds|] == ds;
  }

  /** A prev link exists exactly when the directory is listed after another,
      a next link exactly when another follows it: there is no wrap-around. */
  lemma PathLinksNoWrapAround(dirName: string, ds: seq<string>)
    requires dirName != "./"
    ensures var i := FirstIndex(ds, dirName);
      var (prev, next) := PathLinks(dirName, Some(ds));
      (prev != "|" <==> 0 < i) && (next != "|" <==> 0 <= i && i + 1 < |ds|)
  {
    var i := FirstIndex(ds, dirName);
    if 0 < i {
      assert Anchor(ds[i - 1], "&#x21D0; - ")[0] == '<';
    }
    if 0 <= i && i + 1 < |ds| {
      assert Anchor(ds[i + 1], " - &#x21D2;")[0] == '<';
    }
  }

  const NameWidth := 24

  /** The name fixNameLink shows: names of 24 bytes or more cut to 21 bytes
      and an escaped ">", directories with a trailing slash. */
  function DisplayName(name: string, dir: bool): (r: string)
    ensures |r| == (if |name| < NameWidth then |name| else 27) + (if dir then 1 else 0)
    ensures |name| < NameWidth ==> r[..|name|] == name
    ensures NameWidth <= |name| ==> r[..21] == name[..21] && r[21..27] == "..&gt;"
    ensures dir <==> r != [] && r[|r| - 1] == '/' && (|name| < NameWidth ==> |r| == |name| + 1)
  {
    var shown := if NameWidth <= |name| then name[..21] + "..&gt;" else name;
    if dir then shown + "/" else shown
  }

  /** The link (or plain span) fixNameLink writes for an entry, before padding;
      `isJpeg` stands for isJpegFile(name), which is not part of this model. */
  function NameLink(labelName: string, path: string, name: string, dir: bool, isJpeg: bool): string {
    var shown := DisplayName(name, dir);
    if dir then
      "<a href=\"/label-dir/" + labelName + "/" + path + "\" title=\"" + name + "\">" + shown + "</a>"
    else if isJpeg || dir then
      "<a href=\"/label-dir/" + labelName + "/" + path + "/" + name + "\" title=\"" + name + "\">" + shown + "</a>"
    else
      "<span title=\"" + name + "\">" + shown + "</span>"
  }

  function Spaces(n: nat): (r: string)
    ensures |r| == n && forall i :: 0 <= i < n ==> r[i] == ' '
  {
    if n == 0 then "" else Spaces(n - 1) + " "
  }

  /** fmt's `%-24s`: the text padded on the right with spaces to the width. fmt
      counts the width in runes; here a character stands for one byte, so the
      width counts bytes (only a text shorter than the width is padded). */
  function PadRight(s: string, width: nat): (r: string)
    ensures |r| == if |s| < width then width else |s|
    ensures HasPrefix(r, s)
  {
    if |s| < width then s + Spaces(width - |s|) else s
  }

  /** fixNameLink: the listing line for one entry, as written to the page. */
  method FixNameLink(labelName: string, path: string, name: string, dir: bool, isJpeg: bool) returns (out: string)
    ensures var link := NameLink(labelName, path, name, dir, isJpeg);
      var pad := if |name| < NameWidth then NameWidth - |name| else 0;
      out == "      " + PadRight(link + Spaces(pad), NameWidth) + (if dir then "\n" else "")
  {
    var linkName := NameLink(labelName, path, name, dir, isJpeg);
    var count := |name|;
    while count < NameWidth
      invariant |name| <= count && (count <= NameWidth || count == |name|)
      invariant linkName == NameLink(labelName, path, name, dir, isJpeg) + Spaces(count - |name|)
    {
      linkName := linkName + " ";
      count := count + 1;
    }
    out := "      " + PadRight(linkName, NameWidth);
    if dir {
      out := out + "\n";
    }
  }

  /** The `%-24s` verb never pads: every link is wider than 24 bytes, and the
      padding loop has already made up for names shorter than 24 bytes. */
  lemma LinkNeverPadded(labelName: string, path: string, name: string, dir: bool, isJpeg: bool)
    ensures var pad := if |name| < NameWidth then NameWidth - |name| else 0;
      var link := NameLink(labelName, path, name, dir, isJpeg) + Spaces(pad);
      PadRight(link, NameWidth) == link
  {
    assert |NameLink(labelName, path, name, dir, isJpeg)| >= 22 + |name|;
  }
}
