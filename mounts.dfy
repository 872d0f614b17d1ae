/** The table of mounted archive labels of mounts.go: which directory each
    label is mounted at, and its HTML rendering on the label pages. */
module Mounts {
  import opened Outcomes
  import opened Text
  import Arcpics
  import Files

  const MountedAt := "<b>mounted at</b> "

  /** The pieces of the mount button around the two copies of the label name. */
  const ButtonOpen := "<button onclick=\"mountLabel('"
  const ButtonMiddle := "')\">mount label "
  const ButtonClose := "</button>"

  /** The mount button of a label that is not mounted. */
  function MountButton(labelName: string): string {
    ButtonOpen + labelName + ButtonMiddle + labelName + ButtonClose
  }

  /** `r` is a mount button for `labelName`: the label is the argument of the
      mountLabel call and the last word of the button text. */
  predicate IsMountButton(r: string, labelName: string) {
    var n := |ButtonOpen| + |labelName|;
    && |r| == n + |ButtonMiddle| + |labelName| + |ButtonClose|
    && r[..|ButtonOpen|] == ButtonOpen
    && r[|ButtonOpen|..n] == labelName
    && r[n..n + |ButtonMiddle|] == ButtonMiddle
    && r[n + |ButtonMiddle|..|r| - |ButtonClose|] == labelName
    && r[|r| - |ButtonClose|..] == ButtonClose
  }

  /** The mount point of a label: the stored value, "" when none is stored. */
  function MountPoint(mounts: map<string, string>, labelName: string): string {
    if labelName in mounts then mounts[labelName] else ""
  }

  /** The rendering of a label: where it is mounted, or the button to mount it. */
  function MountHtml(mounts: map<string, string>, labelName: string): string {
    var mountPoint := MountPoint(mounts, labelName);
    if mountPoint != "" then MountedAt + mountPoint else MountButton(labelName)
  }

  /** A label's rendering is the "mounted at" text followed by exactly its mount
      point when it has a non-empty one; otherwise it is the mount button that
      names the label twice. */
  lemma MountHtmlCases(mounts: map<string, string>, labelName: string)
    ensures HasPrefix(MountHtml(mounts, labelName), MountedAt) <==> MountPoint(mounts, labelName) != ""
    ensures MountPoint(mounts, labelName) != "" ==>
      HasSuffix(MountHtml(mounts, labelName), MountPoint(mounts, labelName)) &&
      MountHtml(mounts, labelName)[|MountedAt|..] == MountPoint(mounts, labelName)
    ensures MountPoint(mounts, labelName) == "" ==>
      HasPrefix(MountHtml(mounts, labelName), "<button") &&
      HasSuffix(MountHtml(mounts, labelName), labelName + "</button>") &&
      IsMountButton(MountHtml(mounts, labelName), labelName)
  {
    var r := MountHtml(mounts, labelName);
    if MountPoint(mounts, labelName) == "" {
      assert r[1] == 'b' && MountedAt[1] == 'b';
      assert r[2] == 'u' && MountedAt[2] == '>';
      assert r[..7] == "<button";
      var n := |ButtonOpen| + |labelName|;
      assert r == ButtonOpen + labelName + ButtonMiddle + (labelName + ButtonClose);
      assert r[..|ButtonOpen|] == ButtonOpen;
      assert r[|ButtonOpen|..n] == labelName;
      assert r[n..n + |ButtonMiddle|] == ButtonMiddle;
      assert r[n + |ButtonMiddle|..] == labelName + ButtonClose;
    } else {
      assert r[..|MountedAt|] == MountedAt;
    }
  }

  /** Storing a mount point changes the mount point of that label alone. */
  lemma MountPointAfterStore(mounts: map<string, string>, l: string, v: string, k: string)
    ensures MountPoint(mounts[l := v], k) == if k == l then v else MountPoint(mounts, k)
  {
  }

  /** The unmounted-label and mounted-label renderings of arcpics_test.go. */
  lemma MountHtmlExamples()
    ensures MountPoint(map[], "anyNotExistingLabel") == ""
    ensures MountPoint(map["L01" := "E:\\Arc"], "L01") == "E:\\Arc"
    ensures MountHtml(map["L01" := "E:\\Arc"], "") == "<button onclick=\"mountLabel('')\">mount label </button>"
    ensures MountHtml(map["L01" := "E:\\Arc"], "L01") == "<b>mounted at</b> E:\\Arc"
  {
    var m := map["L01" := "E:\\Arc"];
    assert MountPoint(m, "") == "";
    assert MountPoint(m, "L01") == "E:\\Arc";
  }

  /** LabelMountsType: the label to mount-point map, updated in place. */
  class LabelMounts {
    var mounts: map<string, string>

    constructor ()
      ensures mounts == map[]
    {
      mounts := map[];
    }

    method Set(labelName: string, value: string)
      modifies this
      ensures mounts == old(mounts)[labelName := value]
    {
      mounts := mounts[labelName := value];
    }

    /** The mount point of a label, "" when it is not mounted. */
    function Get(labelName: string): (r: string)
      reads this
      ensures labelName !in mounts ==> r == ""
      ensures labelName in mounts ==> r == mounts[labelName]
      ensures r != "" ==> labelName in mounts && mounts[labelName] == r
    {
      MountPoint(mounts, labelName)
    }

    /** The label's rendering: "mounted at" and its mount point, or the button. */
    function Html(labelName: string): (r: string)
      reads this
      ensures HasPrefix(r, MountedAt) <==> Get(labelName) != ""
      ensures Get(labelName) != "" ==> r[|MountedAt|..] == Get(labelName)
      ensures Get(labelName) == "" ==> IsMountButton(r, labelName)
    {
      MountHtmlCases(mounts, labelName);
      MountHtml(mounts, labelName)
    }

    /** MountLabeledDirectory: mounts the directory under the label read from its
        label file (`names` is its listing). A missing directory or a label error
        leaves the table as it is and yields the message the source prints. */
    method MountLabeledDirectory(dir: string, dirExists: bool, names: seq<string>) returns (msg: Option<string>)
      modifies this
      ensures !dirExists ==> msg == Some("-m " + dir + " :directory doesn't exist") && mounts == old(mounts)
      ensures dirExists ==>
        var (name, err) := Arcpics.LabelOf(dir, names);
        if err.Some? then msg == Some("-m " + dir + " :error " + err.value) && mounts == old(mounts)
        else msg.None? && mounts == old(mounts)[name := dir]
    {
      if !dirExists {
        return Some("-m " + dir + " :directory doesn't exist");
      }
      var name, err := Files.GetLabel(dir, names);
      if err.Some? {
        return Some("-m " + dir + " :error " + err.value);
      }
      Set(name, dir);
      return None;
    }
  }

  /** A mounted directory is found again under its label, and no other label
      moves. */
  lemma MountedThenFound(mounts: map<string, string>, dir: string, names: seq<string>, k: string)
    requires Arcpics.LabelOf(dir, names).1.None?
    ensures MountPoint(mounts[Arcpics.LabelOf(dir, names).0 := dir], Arcpics.LabelOf(dir, names).0) == dir
    ensures k != Arcpics.LabelOf(dir, names).0 ==>
      MountPoint(mounts[Arcpics.LabelOf(dir, names).0 := dir], k) == MountPoint(mounts, k)
    ensures Arcpics.LabelOf(dir, names).0 != ""
  {
    Arcpics.LabelContract(dir, names);
  }
}
