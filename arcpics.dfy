/** The archive-level helpers of arcpics.go: choosing the pictures and
    database directories, reading an archive's label from its label file,
    the most recently mounted directory, and the initial system label entry. */
module Arcpics {
  import opened Outcomes
  import opened Text

  const DefaultNameDash := "arcpics-"
  const LabelPrefix := "arcpics-label."
  const DefaultPicturesDirName := "Arc-Pics"
  const InitLabelKey := "ARC-PICS-LABEL-KEY"

  /** picturesAndDatabaseDirectories: the directories named on the command line,
      each falling back to its default; `defaultDatabaseDir` is what
      GetDatabaseDirName returns (a home-directory lookup, not part of this model). */
  function PicturesAndDatabaseDirectories(args: seq<string>, defaultDatabaseDir: string): (dirs: (string, string))
    ensures |args| == 0 ==> dirs == (DefaultPicturesDirName, defaultDatabaseDir)
    ensures |args| == 1 ==> dirs == (args[0], defaultDatabaseDir)
    ensures |args| >= 2 ==> dirs == (args[0], args[1])
  {
    if |args| < 1 then (DefaultPicturesDirName, defaultDatabaseDir)
    else
      var pictures := args[0];
      var database := if |args| > 1 then args[1] else defaultDatabaseDir;
      (pictures, database)
  }

  lemma PicturesAndDatabaseDirectoriesExamples(home: string)
    ensures PicturesAndDatabaseDirectories([], home) == ("Arc-Pics", home)
    ensures PicturesAndDatabaseDirectories(["ABCD"], home) == ("ABCD", home)
    ensures PicturesAndDatabaseDirectories(["ABCD", "XYZ"], home) == ("ABCD", "XYZ")
  {
  }

  /** The names in a directory listing that start with the label prefix, in order. */
  function LabelFiles(names: seq<string>): (r: seq<string>)
    ensures |r| <= |names|
    ensures forall x :: x in r <==> x in names && HasPrefix(x, LabelPrefix)
    ensures forall k :: 0 <= k < |r| ==> HasPrefix(r[k], LabelPrefix)
  {
    if names == [] then []
    else
      var last := names[|names| - 1];
      var front := names[..|names| - 1];
      assert names == front + [last];
      LabelFiles(front) + if HasPrefix(last, LabelPrefix) then [last] else []
  }

  function NoLabelFileError(archiveDir: string): string {
    "there is no file " + LabelPrefix + "* at directory " + archiveDir + " - should be e.g. " + LabelPrefix + "001"
  }

  function ManyLabelFilesError(archiveDir: string): string {
    "unexpected number files " + LabelPrefix + "* at directory " + archiveDir
  }

  const EmptyLabelError := "there is not" + " at least one character label after dot 'arcpics-db-label.'"

  /** What DbLabel returns for a listing: the label taken from the last label
      file (empty when there is none) and the error, if any. */
  function LabelOf(archiveDir: string, names: seq<string>): (string, Option<string>) {
    var files := LabelFiles(names);
    var name := if files == [] then "" else files[|files| - 1][|LabelPrefix|..];
    if |files| == 0 then (name, Some(NoLabelFileError(archiveDir)))
    else if |files| > 1 then (name, Some(ManyLabelFilesError(archiveDir)))
    else if |name| < 1 then (name, Some(EmptyLabelError))
    else (name, None)
  }

  /** The zero/one/many contract of the label file: no label file and more than
      one are errors; a single one gives its non-empty suffix, the label. */
  lemma LabelContract(archiveDir: string, names: seq<string>)
    ensures var (name, err) := LabelOf(archiveDir, names);
      && ((forall x :: x in names ==> !HasPrefix(x, LabelPrefix)) <==> err == Some(NoLabelFileError(archiveDir)))
      && (|LabelFiles(names)| > 1 <==> err == Some(ManyLabelFilesError(archiveDir)))
      && (err.None? <==> |LabelFiles(names)| == 1 && name != "")
      && (err.None? ==> LabelPrefix + name in names)
  {
    var files := LabelFiles(names);
    assert NoLabelFileError(archiveDir)[0] == 't' && NoLabelFileError(archiveDir)[11] == ' ';
    assert ManyLabelFilesError(archiveDir)[0] == 'u';
    assert EmptyLabelError[11] == 't';
    if files != [] {
      var f := files[|files| - 1];
      assert f in files;
      assert LabelPrefix + f[|LabelPrefix|..] == f;
    }
  }

  lemma DbLabelExample()
    ensures LabelOf("good", ["arcpics-label.a", "x.jpg"]) == ("a", None)
  {
    var names := ["arcpics-label.a", "x.jpg"];
    assert names[..1] == ["arcpics-label.a"];
    assert HasPrefix("arcpics-label.a", LabelPrefix);
    assert !HasPrefix("x.jpg", LabelPrefix);
    assert LabelFiles(names) == ["arcpics-label.a"];
  }

  /** One more name either extends the label files by itself or leaves them. */
  lemma LabelFilesStep(names: seq<string>, i: nat)
    requires i < |names|
    ensures LabelFiles(names[..i + 1]) ==
      LabelFiles(names[..i]) + if HasPrefix(names[i], LabelPrefix) then [names[i]] else []
  {
    assert names[..i + 1][..i] == names[..i];
  }

  /** LabelOf in terms of the number of label files and the last label. */
  lemma LabelOfCounted(archiveDir: string, names: seq<string>, count: nat, name: string)
    requires count == |LabelFiles(names)|
    requires name == if count == 0 then "" else LabelFiles(names)[count - 1][|LabelPrefix|..]
    ensures LabelOf(archiveDir, names) ==
      if count == 0 then (name, Some(NoLabelFileError(archiveDir)))
      else if count > 1 then (name, Some(ManyLabelFilesError(archiveDir)))
      else if |name| < 1 then (name, Some(EmptyLabelError))
      else (name, None)
  {
  }

  /** DbLabel over the names os.ReadDir lists for `archiveDir` (a failing
      ReadDir ends the program and is not part of this model). */
  method DbLabel(archiveDir: string, names: seq<string>) returns (name: string, err: Option<string>)
    ensures (name, err) == LabelOf(archiveDir, names)
  {
    name := "";
    var count := 0;
    for i := 0 to |names|
      invariant count == |LabelFiles(names[..i])|
      invariant name == if count == 0 then "" else LabelFiles(names[..i])[count - 1][|LabelPrefix|..]
    {
      LabelFilesStep(names, i);
      if HasPrefix(names[i], LabelPrefix) {
        count := count + 1;
        name := names[i][|LabelPrefix|..];
      }
    }
    assert names[..|names|] == names;
    LabelOfCounted(archiveDir, names, count, name);
    if count == 0 {
      err := Some(NoLabelFileError(archiveDir));
    } else if count > 1 {
      err := Some(ManyLabelFilesError(archiveDir));
    } else if |name| < 1 {
      err := Some(EmptyLabelError);
    } else {
      err := None;
    }
  }

  /** The (dir, time) the loop of lastMountedDir ends with: a later entry
      replaces the current one only when its time is strictly greater. */
  function Latest(mounts: seq<(string, string)>): (string, string) {
    if mounts == [] then ("", "")
    else
      var current := Latest(mounts[..|mounts| - 1]);
      var entry := mounts[|mounts| - 1];
      if Less(current.1, entry.1) then entry else current
  }

  /** The latest time is no smaller than any entry's, and unless it is the
      initial "" it belongs to the first entry carrying it. */
  lemma {:induction false} LatestIsFirstGreatest(mounts: seq<(string, string)>)
    ensures forall j :: 0 <= j < |mounts| ==> !Less(Latest(mounts).1, mounts[j].1)
    ensures Latest(mounts) == ("", "") ||
      exists i :: 0 <= i < |mounts| && mounts[i] == Latest(mounts) &&
        forall j :: 0 <= j < i ==> Less(mounts[j].1, mounts[i].1)
  {
    if mounts != [] {
      var front := mounts[..|mounts| - 1];
      var entry := mounts[|mounts| - 1];
      LatestIsFirstGreatest(front);
      var current := Latest(front);
      if Less(current.1, entry.1) {
        forall j | 0 <= j < |mounts|
          ensures !Less(entry.1, mounts[j].1)
        {
          if j < |front| {
            assert mounts[j] == front[j];
            LessTotal(current.1, front[j].1);
            if Less(entry.1, front[j].1) {
              LessTransitive(current.1, entry.1, front[j].1);
            }
          } else {
            LessIrreflexive(entry.1);
          }
        }
        forall j | 0 <= j < |front|
          ensures Less(mounts[j].1, entry.1)
        {
          assert mounts[j] == front[j];
          LessTotal(front[j].1, current.1);
          if Less(front[j].1, current.1) {
            LessTransitive(front[j].1, current.1, entry.1);
          }
        }
      } else {
        LessTotal(current.1, entry.1);
        forall j | 0 <= j < |mounts|
          ensures !Less(current.1, mounts[j].1)
        {
          if j < |front| {
            assert mounts[j] == front[j];
          }
        }
        if current != ("", "") {
          var i :| 0 <= i < |front| && front[i] == current &&
            forall j :: 0 <= j < i ==> Less(front[j].1, front[i].1);
          assert mounts[i] == current;
          forall j | 0 <= j < i
            ensures Less(mounts[j].1, mounts[i].1)
          {
            assert mounts[j] == front[j];
          }
        }
      }
    }
  }

  /** lastMountedDir over the MOUNTS bucket as (dir, time) pairs in key order:
      the directory with the greatest time, the first of equals, or "". */
  method LastMountedDir(mounts: seq<(string, string)>) returns (latestDir: string)
    ensures latestDir == Latest(mounts).0
  {
    var latestTime := "";
    latestDir := "";
    for i := 0 to |mounts|
      invariant (latestDir, latestTime) == Latest(mounts[..i])
    {
      assert mounts[..i + 1][..i] == mounts[..i];
      var (dir, t) := mounts[i];
      if Less(latestTime, t) {
        latestTime := t;
        latestDir := dir;
      }
    }
    assert mounts[..|mounts|] == mounts;
  }

  /** insertSystemLabelValue on the SYSTEM bucket: the label is stored under the
      INIT key unless a non-empty value is already there. */
  function InsertSystemLabelValue(system: map<string, string>, value: string): (r: map<string, string>)
    ensures InitLabelKey in r
    ensures InitLabelKey in system && system[InitLabelKey] != "" ==> r == system
    ensures InitLabelKey !in system || system[InitLabelKey] == "" ==> r[InitLabelKey] == value
    ensures forall k :: k != InitLabelKey ==> (k in r <==> k in system) && (k in r ==> r[k] == system[k])
  {
    if InitLabelKey !in system || |system[InitLabelKey]| == 0 then system[InitLabelKey := value]
    else system
  }

  /** A stored label is never overwritten: a second insertion changes nothing
      once a non-empty value is in place. */
  lemma InsertSystemLabelValueKeeps(system: map<string, string>, v1: string, v2: string)
    requires v1 != ""
    ensures InsertSystemLabelValue(InsertSystemLabelValue(system, v1), v2) == InsertSystemLabelValue(system, v1)
    ensures InsertSystemLabelValue(system, v1)[InitLabelKey] ==
      if InitLabelKey in system && system[InitLabelKey] != "" then system[InitLabelKey] else v1
  {
  }
}
