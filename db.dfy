/** The string and counting helpers of the catalogue database (db.go): catalogue
    paths relative to the pictures root, the parent of a catalogue path, the
    IEC size unit, and the word counter over stored directory comments. */
module Db {
  import opened Outcomes
  import opened Text

  /** relPath, after filepath.Abs: `absPath` is the already absolute and cleaned
      path (Abs itself, and its error, are not part of this model). */
  function RelPath(root: string, absPath: string): (r: string)
    ensures '\\' !in r
    ensures |TrimSuffix(absPath, "/")| == |root| ==> r == "./"
  {
    var path := TrimSuffix(absPath, "/");
    ReplaceCharRemoves(path, '\\', '/');
    if |root| < |path| then
      ReplaceCharRemoves(path[|root| + 1..], '\\', '/');
      ReplaceChar(path[|root| + 1..], '\\', '/')
    else if |root| == |path| then "./"
    else ReplaceChar(path, '\\', '/')
  }

  /** A path below the root, with or without one trailing slash, is given by
      what follows the root and its separator, with every '\\' turned into '/'. */
  lemma RelPathBelowRoot(root: string, sep: char, rest: string)
    requires rest != [] && rest[|rest| - 1] != '/'
    ensures RelPath(root, root + [sep] + rest) == ReplaceChar(rest, '\\', '/')
    ensures RelPath(root, root + [sep] + rest + "/") == ReplaceChar(rest, '\\', '/')
    ensures '\\' !in rest ==> RelPath(root, root + [sep] + rest) == rest
  {
    var p := root + [sep] + rest;
    assert !HasSuffix(p, "/");
    assert TrimSuffix(p + "/", "/") == p;
    assert p[|root| + 1..] == rest;
    if '\\' !in rest {
      ReplaceCharIdentity(rest, '\\', '/');
    }
  }

  /** The Windows form of the child test of relPath. */
  lemma RelPathWindowsChildExample()
    ensures RelPath("C:\\tmp", "C:\\tmp\\abc") == "abc"
  {
    var root, rest := "C:\\tmp", "abc";
    RelPathBelowRoot(root, '\\', rest);
    ReplaceCharIdentity(rest, '\\', '/');
    assert root + ['\\'] + rest == "C:\\tmp\\abc";
  }

  /** A '\\' inside the remainder comes back as '/'. */
  lemma RelPathWindowsNestedExample()
    ensures RelPath("C:\\tmp", "C:\\tmp\\a\\b") == "a/b"
  {
    var root, rest := "C:\\tmp", "a\\b";
    RelPathBelowRoot(root, '\\', rest);
    var r := ReplaceChar(rest, '\\', '/');
    assert r[0] == 'a' && r[1] == '/' && r[2] == 'b';
    assert r == "a/b";
    assert root + ['\\'] + rest == "C:\\tmp\\a\\b";
  }

  lemma ReplaceCharIdentity(s: string, a: char, b: char)
    requires a !in s
    ensures ReplaceChar(s, a, b) == s
  {
  }

  /** The root itself, with or without a trailing slash, is "./". */
  lemma RelPathOfRoot(root: string)
    requires !HasSuffix(root, "/")
    ensures RelPath(root, root) == "./"
    ensures RelPath(root, root + "/") == "./"
  {
    assert TrimSuffix(root + "/", "/") == root;
  }

  lemma RelPathRootExamples()
    ensures RelPath("/tmp", "/tmp") == "./"
    ensures RelPath("/tmp", "/tmp/") == "./"
  {
    RelPathOfRoot("/tmp");
    assert "/tmp" + "/" == "/tmp/";
  }

  lemma RelPathChildExamples()
    ensures RelPath("/tmp", "/tmp/abc") == "abc"
    ensures RelPath("/tmp", "/tmp/abc/") == "abc"
  {
    RelPathBelowRoot("/tmp", '/', "abc");
    ReplaceCharIdentity("abc", '\\', '/');
    assert "/tmp" + ['/'] + "abc" == "/tmp/abc";
    assert "/tmp" + ['/'] + "abc" + "/" == "/tmp/abc/";
  }

  /** getParentDir: the catalogue path of the directory holding `rel`. */
  function GetParentDir(rel: string): (r: Result<string>)
    ensures r.Failure? <==> HasPrefix(rel, "/")
    ensures r.Success? && LastIndex(rel, '/') <= 0 ==> r.value == "./"
    ensures r.Success? && 0 < LastIndex(rel, '/') ==>
      var last := rel[LastIndex(rel, '/') + 1..];
      r.value + "/" + last == rel && '/' !in last && r.value != []
  {
    if HasPrefix(rel, "/") then Failure("not relative path: '" + rel + "'")
    else
      var i := LastIndex(rel, '/');
      if i <= 0 then Success("./")
      else
        assert rel == rel[..i] + "/" + rel[i + 1..];
        Success(rel[..i])
  }

  /** A relative path is its parent, a slash and a final element without slashes. */
  lemma ParentOfChild(parent: string, name: string)
    requires parent != [] && parent[0] != '/' && name != [] && '/' !in name
    ensures GetParentDir(parent + "/" + name) == Success(parent)
  {
    var p := parent + "/" + name;
    assert p[|parent|] == '/';
    assert p[|parent| + 1..] == name;
    assert p[..|parent|] == parent;
  }

  lemma GetParentDirExamples()
    ensures GetParentDir("tmp") == Success("./")
    ensures GetParentDir("tmp/abc") == Success("tmp")
    ensures GetParentDir("tmp/abc/x2") == Success("tmp/abc")
    ensures GetParentDir("/tmp").Failure?
  {
    assert "tmp"[2] != '/';
    assert HasPrefix("/tmp", "/");
    ParentOfChild("tmp", "abc");
    assert "tmp" + "/" + "abc" == "tmp/abc";
    ParentOfChild("tmp/abc", "x2");
    assert "tmp/abc" + "/" + "x2" == "tmp/abc/x2";
  }

  newtype int64 = x: int | -0x8000_0000_0000_0000 <= x < 0x8000_0000_0000_0000

  const Unit: int64 := 1024
  const UnitLetters: string := "KMGTPE"

  /** 1024 to the power `e`. */
  function Pow(e: nat): nat {
    if e == 0 then 1 else 1024 * Pow(e - 1)
  }

  /** ByteCountIEC's text: "<b> B" below 1024; otherwise "%.1f" of b/div
      followed by " " and `unit` (the decimal fraction is not modelled). */
  datatype SizeText = Plain(text: string) | Scaled(div: int, unit: string)

  /** The exponent ByteCountIEC's loop selects: 1024^(e+1) <= b < 1024^(e+2). */
  predicate IecScale(b: int, e: nat) {
    Pow(e + 1) <= b < Pow(e + 2)
  }

  lemma {:induction false} PowMonotone(a: nat, b: nat)
    requires a <= b
    ensures Pow(a) <= Pow(b)
    decreases b
  {
    if a < b {
      PowMonotone(a, b - 1);
    }
  }

  /** At most one exponent fits a given size. */
  lemma IecScaleUnique(b: int, e1: nat, e2: nat)
    requires IecScale(b, e1) && IecScale(b, e2)
    ensures e1 == e2
  {
    if e1 < e2 {
      PowMonotone(e1 + 2, e2 + 1);
    } else if e2 < e1 {
      PowMonotone(e2 + 2, e1 + 1);
    }
  }

  /** `b` divided `k` times by 1024, as the loop variable `n` runs. */
  function Shifted(b: nat, k: nat): nat {
    if k == 0 then b else Shifted(b / 1024, k - 1)
  }

  lemma {:induction false} ShiftedStep(b: nat, k: nat)
    ensures Shifted(b, k + 1) == Shifted(b, k) / 1024
    decreases k
  {
    if 0 < k {
      ShiftedStep(b / 1024, k - 1);
    }
  }

  /** `b` divided `k` times is at least one exactly when b >= 1024^k. */
  lemma {:induction false} ShiftedPositive(b: nat, k: nat)
    ensures 1 <= Shifted(b, k) <==> Pow(k) <= b
    decreases k
  {
    if 0 < k {
      ShiftedPositive(b / 1024, k - 1);
    }
  }

  lemma PowBound(e: nat)
    requires Pow(e) < 0x8000_0000_0000_0000
    ensures e <= 6
  {
    if 7 <= e {
      PowMonotone(7, e);
    }
  }

  /** ByteCountIEC: the unit is the IEC scale of `b`, its letter taken from "KMGTPE". */
  method ByteCountIEC(b: int64) returns (r: SizeText)
    ensures b < Unit ==> r == Plain(IntDecimal(b as int) + " B")
    ensures Unit <= b ==> r.Scaled? && exists e: nat :: IecScale(b as int, e) && e < 6 &&
                                                        r.div == Pow(e + 1) && r.unit == [UnitLetters[e]] + "iB"
  {
    if b < Unit {
      return Plain(IntDecimal(b as int) + " B");
    }
    var div: int64, exp: nat := Unit, 0;
    var n := b / Unit;
    while n >= Unit
      invariant 1 <= n && n as int == Shifted(b as int, exp + 1)
      invariant div as int == Pow(exp + 1)
      decreases n
    {
      ShiftedStep(b as int, exp + 1);
      ShiftedPositive(b as int, exp + 2);
      PowBound(exp + 2);
      div := div * Unit;
      exp := exp + 1;
      n := n / Unit;
    }
    ShiftedPositive(b as int, exp + 1);
    ShiftedStep(b as int, exp + 1);
    ShiftedPositive(b as int, exp + 2);
    PowBound(exp + 1);
    assert exp < 6 by {
      if exp == 5 {
        assert Pow(6) == 0x1000_0000_0000_0000;
      }
    }
    return Scaled(div as int, [UnitLetters[exp]] + "iB");
  }

  /** One tebibyte is scaled by the fourth letter, T (TestByteCountIEC). */
  lemma TebibyteScale()
    ensures IecScale(0x100_0000_0000, 3)
    ensures forall e: nat :: IecScale(0x100_0000_0000, e) ==> e == 3
    ensures [UnitLetters[3]] + "iB" == "TiB"
  {
    forall e: nat | IecScale(0x100_0000_0000, e)
      ensures e == 3
    {
      IecScaleUnique(0x100_0000_0000, e, 3);
    }
  }

  /** The five separators the word counter turns into spaces. */
  predicate IsSeparator(c: char) {
    c == '|' || c == ',' || c == ';' || c == ':' || c == '-'
  }

  function Blanked(s: string): (r: string)
    ensures |r| == |s|
  {
    ReplaceChar(ReplaceChar(ReplaceChar(ReplaceChar(ReplaceChar(s, '|', ' '), ',', ' '), ';', ' '), ':', ' '), '-', ' ')
  }

  lemma BlankedChars(s: string)
    ensures forall i :: 0 <= i < |s| ==> Blanked(s)[i] == if IsSeparator(s[i]) then ' ' else s[i]
  {
  }

  lemma BlankedClean(s: string)
    ensures forall c :: c in Blanked(s) ==> !IsSeparator(c)
  {
    BlankedChars(s);
    var b := Blanked(s);
    forall c | c in b
      ensures !IsSeparator(c)
    {
      var i :| 0 <= i < |b| && b[i] == c;
    }
  }

  /** The tokenizer of ArcpicsWordFrequency. */
  function Words(s: string): seq<string> {
    Split(Blanked(s), ' ')
  }

  /** No word holds a space or a separator, and the words joined by spaces give
      back the comment with its separators blanked. */
  lemma WordsAreClean(s: string)
    ensures forall k, j :: 0 <= k < |Words(s)| && 0 <= j < |Words(s)[k]| ==>
      Words(s)[k][j] != ' ' && !IsSeparator(Words(s)[k][j])
    ensures Join(Words(s), ' ') == Blanked(s)
  {
    var b := Blanked(s);
    var ws := Split(b, ' ');
    assert Words(s) == ws;
    JoinSplit(b, ' ');
    BlankedClean(s);
    forall k, j | 0 <= k < |ws| && 0 <= j < |ws[k]|
      ensures ws[k][j] != ' ' && !IsSeparator(ws[k][j])
    {
      assert ws[k][j] in ws[k];
      SplitPieceChar(b, ' ', k, j);
    }
  }

  /** Each character of a piece of a split is a character of the split string. */
  lemma {:induction false} SplitPieceChar(s: string, c: char, k: nat, j: nat)
    requires k < |Split(s, c)| && j < |Split(s, c)[k]|
    ensures Split(s, c)[k][j] in s
    decreases |s|
  {
    var i := LastIndex(s, c);
    if 0 <= i {
      var front := Split(s[..i], c);
      if k < |front| {
        SplitPieceChar(s[..i], c, k, j);
        assert s[..i] <= s;
      } else {
        assert Split(s, c)[k][j] == s[i + 1 + j];
      }
    }
  }

  /** Go's `m[k]` on a map of counters: 0 for a missing key. */
  function Count(m: map<string, int>, w: string): int {
    if w in m then m[w] else 0
  }

  /** The counter after `counter[word]++` for every word in order. */
  function Tally(counter: map<string, int>, words: seq<string>): map<string, int> {
    if words == [] then counter
    else
      var t := Tally(counter, words[..|words| - 1]);
      var w := words[|words| - 1];
      t[w := Count(t, w) + 1]
  }

  lemma TallyStep(counter: map<string, int>, words: seq<string>, w: string)
    ensures Tally(counter, words + [w]) == Tally(counter, words)[w := Count(Tally(counter, words), w) + 1]
  {
    assert (words + [w])[..|words|] == words;
  }

  /** Each word's count grows by its number of occurrences; the keys become the
      old keys and the words. */
  lemma {:induction false} TallyCounts(counter: map<string, int>, words: seq<string>, w: string)
    ensures Count(Tally(counter, words), w) == Count(counter, w) + multiset(words)[w]
    ensures Tally(counter, words).Keys == counter.Keys + set x | x in words
  {
    if words != [] {
      var front := words[..|words| - 1];
      TallyCounts(counter, front, w);
      assert words == front + [words[|words| - 1]];
    }
  }

  /** Tallying two lists in turn is tallying their concatenation. */
  lemma {:induction false} TallyAppend(counter: map<string, int>, a: seq<string>, b: seq<string>)
    ensures Tally(Tally(counter, a), b) == Tally(counter, a + b)
    decreases |b|
  {
    if b != [] {
      TallyAppend(counter, a, b[..|b| - 1]);
      var ab := a + b;
      assert ab[..|ab| - 1] == a + b[..|b| - 1];
      assert ab[|ab| - 1] == b[|b| - 1];
    } else {
      assert a + b == a;
    }
  }

  /** The inner loop of ArcpicsWordFrequency: `counter[word]++` for each word. */
  method CountWords(counter: map<string, int>, words: seq<string>) returns (r: map<string, int>)
    ensures r == Tally(counter, words)
  {
    r := counter;
    for i := 0 to |words|
      invariant r == Tally(counter, words[..i])
    {
      assert words[..i + 1][..i] == words[..i];
      r := r[words[i] := Count(r, words[i]) + 1];
    }
    assert words[..|words|] == words;
  }

  /** All words of the comments whose record decoded (None stands for a record
      json.Unmarshal rejected, which is skipped). */
  function AllWords(comments: seq<Option<string>>): seq<string> {
    if comments == [] then []
    else
      var last := comments[|comments| - 1];
      AllWords(comments[..|comments| - 1]) + if last.Some? then Words(last.value) else []
  }

  /** ArcpicsWordFrequency over the MostComment fields of the stored records, in
      cursor order. Printing the counter is not modelled. */
  method WordFrequency(comments: seq<Option<string>>) returns (counter: map<string, int>)
    ensures forall w :: Count(counter, w) == multiset(AllWords(comments))[w]
    ensures counter.Keys == set x | x in AllWords(comments)
  {
    counter := map[];
    for i := 0 to |comments|
      invariant counter == Tally(map[], AllWords(comments[..i]))
    {
      ghost var before := AllWords(comments[..i]);
      var words := if comments[i].Some? then Words(comments[i].value) else [];
      assert AllWords(comments[..i + 1]) == before + words by {
        assert comments[..i + 1][..i] == comments[..i];
        assert comments[..i + 1][i] == comments[i];
      }
      if comments[i].Some? {
        counter := CountWords(counter, words);
        TallyAppend(map[], before, words);
      } else {
        assert before + words == before;
      }
    }
    assert comments[..|comments|] == comments;
    FromEmptyTally(AllWords(comments));
  }

  lemma FromEmptyTally(words: seq<string>)
    ensures forall w :: Count(Tally(map[], words), w) == multiset(words)[w]
    ensures Tally(map[], words).Keys == set x | x in words
  {
    forall w {
      TallyCounts(map[], words, w);
    }
    TallyCounts(map[], words, "");
  }
}
