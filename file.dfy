/** The per-directory catalogue records of file.go: which directory entries are
    catalogued, the database files of a database directory, comparing two
    directory records, and building the record of one directory. */
module Files {
  import opened Outcomes
  import opened Text
  import Jpeg
  import Db
  import Arcpics

  /** A directory entry as os.ReadDir lists it, with what the catalogue reads
      of the file: its size, its modification time already formatted with
      timeStampJsonFormat, and its content as the JPEG reader would deliver it. */
  datatype Entry = Entry(name: string, isDir: bool, size: Db.int64, time: string, content: seq<Jpeg.byte>)

  /** A catalogued file. */
  datatype Jfile = Jfile(name: string, size: string, time: string, comment: string, thumbnail: seq<Jpeg.byte>)

  /** A catalogued directory. */
  datatype Jdir = Jdir(description: string, location: string, mostComment: string, files: seq<Jfile>, dirs: seq<string>)

  /** getLabel has the same body as DbLabel. */
  method GetLabel(archiveDir: string, names: seq<string>) returns (name: string, err: Option<string>)
    ensures (name, err) == Arcpics.LabelOf(archiveDir, names)
  {
    name, err := Arcpics.DbLabel(archiveDir, names);
  }

  /** Whether filesInDir keeps an entry: a file that is none of the catalogue's
      own JSON files (`jsonFilePrefix` and `jsonUserData` are not defined in the
      sources, so they are parameters). */
  predicate Catalogued(e: Entry, jsonFilePrefix: string, jsonUserData: string) {
    !e.isDir && !HasPrefix(e.name, jsonFilePrefix) && !HasPrefix(e.name, jsonUserData)
  }

  function PlainFiles(entries: seq<Entry>, jsonFilePrefix: string, jsonUserData: string): seq<Entry> {
    if entries == [] then []
    else
      var last := entries[|entries| - 1];
      PlainFiles(entries[..|entries| - 1], jsonFilePrefix, jsonUserData) +
      if Catalogued(last, jsonFilePrefix, jsonUserData) then [last] else []
  }

  /** The kept entries are exactly the catalogued ones, and filtering a listing
      piecewise gives the same order as filtering it whole. */
  lemma {:induction false} PlainFilesKeepsOrder(a: seq<Entry>, b: seq<Entry>, p: string, u: string)
    ensures PlainFiles(a + b, p, u) == PlainFiles(a, p, u) + PlainFiles(b, p, u)
    decreases |b|
  {
    if b == [] {
      assert a + b == a;
    } else {
      var front := b[..|b| - 1];
      PlainFilesKeepsOrder(a, front, p, u);
      assert (a + b)[..|a + b| - 1] == a + front;
    }
  }

  lemma {:induction false} PlainFilesMembers(entries: seq<Entry>, p: string, u: string)
    ensures forall e :: e in PlainFiles(entries, p, u) <==> e in entries && Catalogued(e, p, u)
  {
    if entries != [] {
      var front := entries[..|entries| - 1];
      PlainFilesMembers(front, p, u);
      assert entries == front + [entries[|entries| - 1]];
    }
  }

  /** filesInDir over the result of os.ReadDir. */
  method FilesInDir(listing: Result<seq<Entry>>, jsonFilePrefix: string, jsonUserData: string)
    returns (r: Result<seq<Entry>>)
    ensures listing.Failure? ==> r == Failure(listing.error)
    ensures listing.Success? ==> r == Success(PlainFiles(listing.value, jsonFilePrefix, jsonUserData))
  {
    if listing.Failure? {
      return Failure(listing.error);
    }
    var files := listing.value;
    var onlyFiles := [];
    for i := 0 to |files|
      invariant onlyFiles == PlainFiles(files[..i], jsonFilePrefix, jsonUserData)
    {
      assert files[..i + 1][..i] == files[..i];
      if !files[i].isDir {
        var a := !HasPrefix(files[i].name, jsonFilePrefix);
        var b := !HasPrefix(files[i].name, jsonUserData);
        if a && b {
          onlyFiles := onlyFiles + [files[i]];
        }
      }
    }
    assert files[..|files|] == files;
    return Success(onlyFiles);
  }

  /** The name of the database of a label (arcpics.go:257). */
  function DbFileName(name: string): string {
    Arcpics.DefaultNameDash + name + ".db"
  }

  /** Whether GetLabelsInDbDir takes a file name as a database. */
  predicate IsDbFile(name: string) {
    HasPrefix(name, Arcpics.DefaultNameDash) && Ext(name) == ".db"
  }

  /** The label of a database file: its name without the prefix and ".db". */
  function DbLabelOf(name: string): (r: string)
    requires IsDbFile(name)
    ensures DbFileName(r) == name
  {
    assert HasSuffix(name, ".db");
    assert |name| >= 11;
    var rest := name[|Arcpics.DefaultNameDash|..];
    rest[..|rest| - 3]
  }

  /** Every label names a database file whose label it is. */
  lemma DbFileNameRoundTrip(name: string)
    ensures IsDbFile(DbFileName(name))
    ensures DbLabelOf(DbFileName(name)) == name
  {
    var f := DbFileName(name);
    assert f[|f| - 3..] == ".db";
    var d := LastIndex(f, '.');
    assert d == |f| - 3 by {
      assert f[|f| - 3] == '.';
      assert '.' !in f[|f| - 2..];
    }
    assert f[d..] == ".db";
    assert f[..8] == Arcpics.DefaultNameDash;
  }

  function DbLabels(entries: seq<Entry>): seq<string> {
    if entries == [] then []
    else
      var last := entries[|entries| - 1];
      DbLabels(entries[..|entries| - 1]) +
      if !last.isDir && IsDbFile(last.name) then [DbLabelOf(last.name)] else []
  }

  /** The labels are those of the database files listed, and of nothing else:
      directories are ignored whatever their names. */
  lemma {:induction false} DbLabelsMembers(entries: seq<Entry>)
    ensures forall l :: l in DbLabels(entries) <==>
      exists e :: e in entries && !e.isDir && e.name == DbFileName(l)
  {
    if entries != [] {
      var front := entries[..|entries| - 1];
      var last := entries[|entries| - 1];
      DbLabelsMembers(front);
      assert entries == front + [last];
      forall l
        ensures l in DbLabels(entries) <==> exists e :: e in entries && !e.isDir && e.name == DbFileName(l)
      {
        EntryLabel(last, l);
        if exists e :: e in entries && !e.isDir && e.name == DbFileName(l) {
          var e :| e in entries && !e.isDir && e.name == DbFileName(l);
          if e !in front {
            assert e == last;
          }
        }
      }
    }
  }

  /** A listed file gives the label `l` exactly when it is the database of `l`. */
  lemma EntryLabel(e: Entry, l: string)
    ensures (!e.isDir && IsDbFile(e.name) && DbLabelOf(e.name) == l) <==> (!e.isDir && e.name == DbFileName(l))
  {
    DbFileNameRoundTrip(l);
  }


  /** GetLabelsInDbDir over the result of os.ReadDir, in listing order. */
  method GetLabelsInDbDir(listing: Result<seq<Entry>>) returns (r: Result<seq<string>>)
    ensures listing.Failure? ==> r == Failure(listing.error)
    ensures listing.Success? ==> r == Success(DbLabels(listing.value))
  {
    if listing.Failure? {
      return Failure(listing.error);
    }
    var files := listing.value;
    var labels := [];
    for i := 0 to |files|
      invariant labels == DbLabels(files[..i])
    {
      assert files[..i + 1][..i] == files[..i];
      if !files[i].isDir {
        var a := HasPrefix(files[i].name, Arcpics.DefaultNameDash);
        var b := Ext(files[i].name) == ".db";
        if a && b {
          labels := labels + [DbLabelOf(files[i].name)];
        }
      }
    }
    assert files[..|files|] == files;
    return Success(labels);
  }

  /** What jDirIsEqual compares of two files. */
  predicate SameFile(a: Jfile, b: Jfile) {
    a.comment == b.comment && a.name == b.name && a.size == b.size && a.time == b.time
  }

  /** What jDirIsEqual compares of two directories: the same description, most
      frequent comment, location and files, compared pairwise in order;
      thumbnails and subdirectories are not compared. */
  predicate SameDir(a: Jdir, b: Jdir) {
    a.description == b.description && a.mostComment == b.mostComment &&
    a.location == b.location && |a.files| == |b.files| &&
    forall i :: 0 <= i < |a.files| ==> SameFile(a.files[i], b.files[i])
  }

  /** Every record equals itself, and equality does not depend on the order of
      the arguments. */
  lemma SameDirReflexiveSymmetric(a: Jdir, b: Jdir)
    ensures SameDir(a, a)
    ensures SameDir(a, b) <==> SameDir(b, a)
  {
  }

  /** jDirIsEqual: the early returns of the Go loop give exactly SameDir. */
  method JDirIsEqual(a: Jdir, b: Jdir) returns (r: bool)
    ensures r <==> SameDir(a, b)
  {
    if a.description != b.description {
      return false;
    }
    if a.mostComment != b.mostComment {
      return false;
    }
    if a.location != b.location {
      return false;
    }
    if |a.files| != |b.files| {
      return false;
    }
    for i := 0 to |a.files|
      invariant forall k :: 0 <= k < i ==> SameFile(a.files[k], b.files[k])
    {
      var af := a.files[i];
      if af.comment != b.files[i].comment {
        return false;
      }
      if af.name != b.files[i].name {
        return false;
      }
      if af.size != b.files[i].size {
        return false;
      }
      if af.time != b.files[i].time {
        return false;
      }
    }
    return true;
  }

  /** The text of a comment, one character per byte. */
  function Chars(bytes: seq<Jpeg.byte>): (s: string)
    ensures |s| == |bytes| && forall i :: 0 <= i < |bytes| ==> s[i] as int == bytes[i] as int
  {
    if bytes == [] then "" else Chars(bytes[..|bytes| - 1]) + [bytes[|bytes| - 1] as int as char]
  }

  /** getJpegComment's result: the comment the decoder leaves in the reader,
      whatever error Decode returns; a panic of the decoder ends the program. */
  function JpegComment(content: seq<Jpeg.byte>): Outcome<string> {
    var f := Jpeg.Decode(content);
    if f.status.Panic? then Panic(f.status.crash) else Done(Chars(f.meta.comment))
  }

  /** getJpegComment on the content of an opened file. */
  method GetJpegComment(content: seq<Jpeg.byte>) returns (r: Outcome<string>)
    ensures r == JpegComment(content)
  {
    var j := new Jpeg.JpegReader.Open(content);
    var status := j.Decode();
    if status.Panic? {
      return Panic(status.crash);
    }
    return Done(Chars(j.Comment));
  }

  const Placeholder := "my own comment, OK? ReadJpegComment"

  /** Whether makeJdir asks the JPEG decoder for a file's comment. */
  predicate IsJpegName(name: string) {
    HasSuffix(ToLower(name), "jpg")
  }

  /** The record makeJdir builds for one file, given its comment. */
  function Record(e: Entry, comment: string): Jfile {
    Jfile(e.name, IntDecimal(e.size as int), e.time, comment, [])
  }

  /** The comment makeJdir records for a file. */
  function CommentOf(e: Entry): Outcome<string> {
    if IsJpegName(e.name) then JpegComment(e.content) else Done(Placeholder)
  }

  /** The record of one file, or the panic of its comment. */
  function RecordOf(e: Entry): Outcome<Jfile> {
    var comment :- CommentOf(e);
    Done(Record(e, comment))
  }

  /** The record outcome of each file, in order. */
  function RecordsOf(files: seq<Entry>): (r: seq<Outcome<Jfile>>)
    ensures |r| == |files| && forall k :: 0 <= k < |files| ==> r[k] == RecordOf(files[k])
  {
    seq(|files|, k requires 0 <= k < |files| => RecordOf(files[k]))
  }

  /** The loop's early return: all the values in order, or the first panic. */
  function Collect(outs: seq<Outcome<Jfile>>): Outcome<seq<Jfile>> {
    if outs == [] then Done([])
    else
      var front :- Collect(outs[..|outs| - 1]);
      var last :- outs[|outs| - 1];
      Done(front + [last])
  }

  /** The records makeJdir builds for the files, or the first decoder panic. */
  function Records(files: seq<Entry>): Outcome<seq<Jfile>> {
    Collect(RecordsOf(files))
  }

  function Comments(files: seq<Jfile>): seq<string> {
    if files == [] then [] else Comments(files[..|files| - 1]) + [files[|files| - 1].comment]
  }

  lemma CommentsStep(records: seq<Jfile>, rec: Jfile)
    ensures Comments(records + [rec]) == Comments(records) + [rec.comment]
  {
    assert (records + [rec])[..|records|] == records;
  }

  /** Without a panic, every outcome's value is collected, in order. */
  lemma {:induction false} CollectAll(outs: seq<Outcome<Jfile>>)
    requires Collect(outs).Done?
    ensures |Collect(outs).value| == |outs|
    ensures forall i :: 0 <= i < |outs| ==> outs[i] == Done(Collect(outs).value[i])
  {
    if outs != [] {
      CollectAll(outs[..|outs| - 1]);
    }
  }

  /** The collection panics exactly when some outcome is a panic. */
  lemma {:induction false} CollectPanics(outs: seq<Outcome<Jfile>>)
    ensures Collect(outs).Panic? <==> exists k :: 0 <= k < |outs| && outs[k].Panic?
  {
    if outs != [] {
      var n := |outs| - 1;
      var front := outs[..n];
      CollectPanics(front);
      if exists k :: 0 <= k < n && front[k].Panic? {
        var k :| 0 <= k < n && front[k].Panic?;
        assert outs[k].Panic?;
      }
      if exists k :: 0 <= k < |outs| && outs[k].Panic? {
        var k :| 0 <= k < |outs| && outs[k].Panic?;
        if k < n {
          assert front[k].Panic?;
        }
      }
    }
  }

  /** One record per file, in listing order: same name, the decoder's comment
      exactly for names ending in "jpg" whatever their case, the placeholder
      otherwise; and a decoder panic on any of them is the outcome. */
  lemma RecordedComments(files: seq<Entry>)
    ensures Records(files).Panic? <==> exists k :: 0 <= k < |files| && CommentOf(files[k]).Panic?
    ensures Records(files).Done? ==> |Records(files).value| == |files|
    ensures Records(files).Done? ==> forall i :: 0 <= i < |files| ==>
      var rec := Records(files).value[i];
      rec.name == files[i].name &&
      (IsJpegName(files[i].name) ==> Done(rec.comment) == JpegComment(files[i].content)) &&
      (!IsJpegName(files[i].name) ==> rec.comment == Placeholder)
  {
    var outs := RecordsOf(files);
    CollectPanics(outs);
    if Records(files).Done? {
      CollectAll(outs);
    }
  }

  /** The comment of one file in makeJdir's loop. */
  method FileComment(e: Entry) returns (comment: Outcome<string>)
    ensures comment == CommentOf(e)
  {
    if HasSuffix(ToLower(e.name), "jpg") {
      comment := GetJpegComment(e.content);
    } else {
      comment := Done(Placeholder);
    }
  }

  /** A panic while collecting a prefix is the outcome for the whole. */
  lemma {:induction false} CollectPanicStays(outs: seq<Outcome<Jfile>>, i: nat)
    requires i <= |outs| && Collect(outs[..i]).Panic?
    ensures Collect(outs) == Collect(outs[..i])
    decreases |outs|
  {
    if i < |outs| {
      var front := outs[..|outs| - 1];
      assert front[..i] == outs[..i];
      CollectPanicStays(front, i);
    } else {
      assert outs[..i] == outs;
    }
  }

  lemma CollectStopsAt(outs: seq<Outcome<Jfile>>, i: nat, records: seq<Jfile>)
    requires i < |outs| && Collect(outs[..i]) == Done(records) && outs[i].Panic?
    ensures Collect(outs) == Panic(outs[i].crash)
  {
    assert outs[..i + 1][..i] == outs[..i];
    CollectPanicStays(outs, i + 1);
  }

  lemma CollectStep(outs: seq<Outcome<Jfile>>, i: nat, records: seq<Jfile>, rec: Jfile)
    requires i < |outs| && Collect(outs[..i]) == Done(records) && outs[i] == Done(rec)
    ensures Collect(outs[..i + 1]) == Done(records + [rec])
  {
    assert outs[..i + 1][..i] == outs[..i];
  }

  lemma CountStep(records: seq<Jfile>, counter: map<string, int>, rec: Jfile)
    requires counter == Db.Tally(map[], Comments(records))
    ensures Db.Tally(map[], Comments(records + [rec])) == counter[rec.comment := Db.Count(counter, rec.comment) + 1]
  {
    CommentsStep(records, rec);
    Db.TallyStep(map[], Comments(records), rec.comment);
  }

  /** The per-file loop of makeJdir: the records and the comment counter. */
  method RecordFiles(files: seq<Entry>) returns (r: Outcome<seq<Jfile>>, counter: map<string, int>)
    ensures r == Records(files)
    ensures r.Done? ==> counter == Db.Tally(map[], Comments(r.value))
  {
    ghost var outs := RecordsOf(files);
    counter := map[];
    var records := [];
    for i := 0 to |files|
      invariant Collect(outs[..i]) == Done(records)
      invariant counter == Db.Tally(map[], Comments(records))
    {
      var e := files[i];
      var comment := FileComment(e);
      if comment.Panic? {
        CollectStopsAt(outs, i, records);
        return Panic(comment.crash), counter;
      }
      var rec := Record(e, comment.value);
      CollectStep(outs, i, records, rec);
      CountStep(records, counter, rec);
      counter := counter[rec.comment := Db.Count(counter, rec.comment) + 1];
      records := records + [rec];
    }
    assert outs[..|files|] == outs;
    return Done(records), counter;
  }

  /** The maximum loop of makeJdir over the counter, in Go's unspecified map
      order: a key of greatest count, or "" and 0 when no count is positive. */
  method MostFrequent(counter: map<string, int>) returns (kMax: string, vMax: int)
    ensures 0 <= vMax && forall k :: k in counter ==> counter[k] <= vMax
    ensures 0 < vMax ==> kMax in counter && counter[kMax] == vMax
    ensures vMax == 0 ==> kMax == ""
  {
    vMax, kMax := 0, "";
    var rest := counter.Keys;
    while rest != {}
      invariant rest <= counter.Keys
      invariant 0 <= vMax && forall k :: k in counter && k !in rest ==> counter[k] <= vMax
      invariant 0 < vMax ==> kMax in counter && counter[kMax] == vMax
      invariant vMax == 0 ==> kMax == ""
      decreases rest
    {
      var k :| k in rest;
      if counter[k] > vMax {
        vMax := counter[k];
        kMax := k;
      }
      rest := rest - {k};
    }
  }

  /** The MostComment text "k: v/n". */
  function MostCommentText(k: string, v: int, n: nat): string {
    k + ": " + IntDecimal(v) + "/" + IntDecimal(n)
  }

  /** The MostComment field: "k: v/n" for a key of greatest count, unless that
      key is the empty comment or no count is positive. */
  method MostComment(counter: map<string, int>, n: nat) returns (text: string)
    ensures text != "" ==>
      exists k :: k in counter && k != "" && 0 < counter[k] &&
        (forall k' :: k' in counter ==> counter[k'] <= counter[k]) && text == MostCommentText(k, counter[k], n)
    ensures forall k :: k in counter && k != "" && 0 < counter[k] && (forall k' :: k' in counter && k' != k ==> counter[k'] < counter[k]) ==>
      text == MostCommentText(k, counter[k], n)
  {
    var kMax, vMax := MostFrequent(counter);
    text := "";
    if kMax != "" {
      text := MostCommentText(kMax, vMax, n);
      assert kMax[0] == text[0];
    }
  }

  const UserDataPlaceholder := "here could be a description from file "

  /** What makeJdir reads of the user-data file: its description and location,
      None when the file is missing or does not decode. */
  datatype UserData = UserData(description: string, location: string)

  /** makeJdir: the record of a directory from its user data and its listing;
      the error of a failing listing is returned beside the record built so far. */
  method MakeJdir(userData: Option<UserData>, listing: Result<seq<Entry>>, jsonFilePrefix: string, jsonUserData: string)
    returns (r: Outcome<(Jdir, Option<string>)>)
    ensures var description := if userData.Some? then userData.value.description else UserDataPlaceholder + jsonUserData;
      var location := if userData.Some? then userData.value.location else UserDataPlaceholder + jsonUserData;
      r.Done? ==> r.value.0.description == description && r.value.0.location == location
    ensures listing.Failure? ==> r.Done? && r.value.1 == Some(listing.error) && r.value.0.files == []
    ensures listing.Success? ==>
      var records := Records(PlainFiles(listing.value, jsonFilePrefix, jsonUserData));
      (r.Panic? <==> records.Panic?) &&
      (r.Done? ==> r.value.1.None? && r.value.0.files == records.value)
    ensures r.Done? && r.value.0.mostComment != "" ==>
      var counts := Db.Tally(map[], Comments(r.value.0.files));
      exists k :: k in counts && k != "" && (forall k' :: k' in counts ==> counts[k'] <= counts[k]) &&
        r.value.0.mostComment == MostCommentText(k, counts[k], |r.value.0.files|)
    ensures r.Done? && listing.Success? ==>
      var counts := Db.Tally(map[], Comments(r.value.0.files));
      forall k :: k in counts && k != "" && (forall k' :: k' in counts && k' != k ==> counts[k'] < counts[k]) ==>
        r.value.0.mostComment == MostCommentText(k, counts[k], |r.value.0.files|)
  {
    var jd := Jdir(UserDataPlaceholder + jsonUserData, UserDataPlaceholder + jsonUserData, "", [], []);
    if userData.Some? {
      jd := jd.(description := userData.value.description, location := userData.value.location);
    }
    var files := FilesInDir(listing, jsonFilePrefix, jsonUserData);
    if files.Failure? {
      return Done((jd, Some(files.error)));
    }
    var records, counter := RecordFiles(files.value);
    if records.Panic? {
      return Panic(records.crash);
    }
    jd := jd.(files := records.value);
    forall k | k in counter
      ensures counter[k] > 0
    {
      Db.TallyCounts(map[], Comments(jd.files), k);
    }
    var text := MostComment(counter, |jd.files|);
    jd := jd.(mostComment := text);
    return Done((jd, None));
  }
}
