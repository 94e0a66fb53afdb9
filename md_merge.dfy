/** merge_markdown.py, `merge_folder` and `main`: one Markdown bundle per
    top-level Drive folder, written to `OUTPUT_DIR/<folder title>.md`. The
    Drive is an oracle giving the outcome of every download attempt; the
    output directory is a map from file name to content. */
module MdMerge {
  import opened Common
  import opened MdRetry
  import opened MdTraversal

  const Separator: string := "\n\n---\n"

  /** What is written for one downloaded file: the separator, a heading with
      the file's title, a blank line, then the text. */
  function Section(title: string, text: string): (r: string)
    ensures |r| > |Separator| && r[..|Separator|] == Separator
  {
    Separator + "# " + title + "\n\n" + text
  }

  /** The outcome of attempt `a` at downloading file `fid`. */
  type Drive = (string, nat) -> Attempt

  function ServerFor(drive: Drive, fid: string): nat -> Attempt
  {
    (a: nat) => drive(fid, a)
  }

  /** What `safe_download_md(drive, fid)` ends with. */
  function Downloaded(drive: Drive, fid: string): Download
  {
    RunFrom(ServerFor(drive, fid), 1).result
  }

  /** The title of each file to bundle, with what its download ended with. */
  function Entries(files: seq<MdFile>, drive: Drive): seq<(string, Download)>
  {
    seq(|files|, i requires 0 <= i < |files| => (files[i].title, Downloaded(drive, files[i].id)))
  }

  /** The text written to the output file, and whether an exception escaped
      (leaving the file with what was written before it). */
  datatype Bundle = Bundle(text: string, aborted: bool)

  /** The write loop of `merge_folder` over the download outcomes: a returned
      text adds its section, None is skipped, a raised exception stops. */
  function Bundled(e: seq<(string, Download)>): Bundle
  {
    if e == [] then Bundle("", false)
    else match e[0].1
      case Raised => Bundle("", true)
      case NoText => Bundled(e[1..])
      case Returned(text) => Prefixed(Section(e[0].0, text), Bundled(e[1..]))
  }

  /** `b` written after `p`. */
  function Prefixed(p: string, b: Bundle): Bundle
  {
    Bundle(p + b.text, b.aborted)
  }

  /** The effect of a folder on the output directory. */
  datatype FolderOutcome = Skipped | Wrote(content: string) | Aborted(partial: string)

  /** `merge_folder` on a folder whose items are `children`: no Markdown file
      below it means no file written; otherwise the bundle of its files. */
  function FolderSpec(children: seq<DriveItem>, drive: Drive): FolderOutcome
  {
    var files := RecurseMdFiles(children);
    if files == [] then Skipped
    else
      var b := Bundled(Entries(files, drive));
      if b.aborted then Aborted(b.text) else Wrote(b.text)
  }

  /** The output file opened with `'w'`: it starts empty and only grows. */
  class OutFile {
    var text: string

    constructor ()
      ensures text == ""
    {
      text := "";
    }

    method Write(s: string)
      modifies this
      ensures text == old(text) + s
    {
      text := text + s;
    }
  }

  lemma WriteLoopStep(p: string, e: seq<(string, Download)>, i: nat)
    requires i < |e| && e[i].1.Returned?
    ensures Prefixed(p, Bundled(e[i..])) == Prefixed(p + Section(e[i].0, e[i].1.text), Bundled(e[i + 1..]))
  {
    assert e[i..][1..] == e[i + 1..];
  }

  /** `merge_folder(drive, folder)`: traverse, open the output file, write
      each downloaded file in order; an exception leaves the file as far as it
      was written. */
  method MergeFolder(folder: DriveItem, drive: Drive) returns (out: FolderOutcome)
    requires folder.Folder?
    ensures out == FolderSpec(folder.children, drive)
  {
    var items := RecurseMdFiles(folder.children);
    if items == [] {
      return Skipped;
    }
    var fout := new OutFile();
    ghost var e := Entries(items, drive);
    var i := 0;
    while i < |items|
      invariant 0 <= i <= |items|
      invariant Bundled(e) == Prefixed(fout.text, Bundled(e[i..]))
    {
      var title, fid := items[i].title, items[i].id;
      var text, _, _ := SafeDownloadMd(ServerFor(drive, fid));
      assert e[i] == (title, text);
      if text.Raised? {
        return Aborted(fout.text);
      }
      if text.NoText? {
        assert e[i..][1..] == e[i + 1..];
      } else {
        WriteLoopStep(fout.text, e, i);
        fout.Write(Section(title, text.text));
      }
      i := i + 1;
    }
    assert e[i..] == [];
    return Wrote(fout.text);
  }

  /** Writing is compositional: the bundle of two runs of files is the first
      one, and then, unless it aborted, the second. */
  lemma {:induction false} BundledAppend(a: seq<(string, Download)>, b: seq<(string, Download)>)
    ensures Bundled(a + b) == if Bundled(a).aborted then Bundled(a) else Prefixed(Bundled(a).text, Bundled(b))
  {
    if a == [] {
      assert a + b == b;
    } else {
      assert (a + b)[0] == a[0];
      assert (a + b)[1..] == a[1..] + b;
      BundledAppend(a[1..], b);
      if a[0].1.Returned? {
        var p := Section(a[0].0, a[0].1.text);
        var r := Bundled(a[1..]);
        if !r.aborted {
          assert p + (r.text + Bundled(b).text) == (p + r.text) + Bundled(b).text;
        }
      }
    }
  }

  /** A file whose download gave None leaves the output exactly as if it had
      not been in the folder. */
  lemma NoTextSkipped(e: seq<(string, Download)>, i: nat)
    requires i < |e| && e[i].1 == NoText
    ensures Bundled(e[..i] + e[i + 1..]) == Bundled(e)
  {
    var front, tail, back := e[..i], [e[i]] + e[i + 1..], e[i + 1..];
    assert e == front + tail;
    assert tail[0] == e[i] && tail[1..] == back;
    assert Bundled(tail) == Bundled(back);
    BundledAppend(front, tail);
    BundledAppend(front, back);
  }

  /** The run aborts exactly when some download raised. */
  lemma {:induction false} AbortedIff(e: seq<(string, Download)>)
    ensures Bundled(e).aborted <==> exists i :: 0 <= i < |e| && e[i].1 == Raised
  {
    if e != [] {
      AbortedIff(e[1..]);
      if e[0].1 != Raised {
        assert forall i :: 1 <= i < |e| ==> e[i] == e[1..][i - 1];
        if exists i :: 0 <= i < |e| && e[i].1 == Raised {
          var i :| 0 <= i < |e| && e[i].1 == Raised;
          assert e[1..][i - 1].1 == Raised;
        }
      }
    }
  }

  /** When every download gave None the file is still created, and empty. */
  lemma {:induction false} AllSkippedIsEmpty(e: seq<(string, Download)>)
    requires forall i :: 0 <= i < |e| ==> e[i].1 == NoText
    ensures Bundled(e) == Bundle("", false)
  {
    if e != [] {
      assert forall i :: 0 <= i < |e[1..]| ==> e[1..][i] == e[i + 1];
      AllSkippedIsEmpty(e[1..]);
    }
  }

  /** Anything written starts with the separator: it precedes the first
      section too, not only the later ones. */
  lemma {:induction false} StartsWithSeparator(e: seq<(string, Download)>)
    ensures Bundled(e).text != [] ==> |Bundled(e).text| > |Separator| && Bundled(e).text[..|Separator|] == Separator
  {
    if e != [] {
      StartsWithSeparator(e[1..]);
      if e[0].1.Returned? {
        var s := Section(e[0].0, e[0].1.text);
        assert Bundled(e).text == s + Bundled(e[1..]).text;
        assert (s + Bundled(e[1..]).text)[..|Separator|] == s[..|Separator|];
      }
    }
  }

  /** The downloaded texts, with their titles, in order, up to the first
      exception. */
  function WrittenFiles(e: seq<(string, Download)>): seq<(string, string)>
  {
    if e == [] || e[0].1 == Raised then []
    else if e[0].1 == NoText then WrittenFiles(e[1..])
    else [(e[0].0, e[0].1.text)] + WrittenFiles(e[1..])
  }

  function Sections(ws: seq<(string, string)>): seq<string>
  {
    seq(|ws|, i requires 0 <= i < |ws| => Section(ws[i].0, ws[i].1))
  }

  /** The file holds one section per downloaded text, in listing order, and
      nothing else. */
  lemma {:induction false} BundleIsSections(e: seq<(string, Download)>)
    ensures Bundled(e).text == Flatten(Sections(WrittenFiles(e)))
  {
    if e != [] && e[0].1 != Raised {
      BundleIsSections(e[1..]);
      if e[0].1.Returned? {
        var w := (e[0].0, e[0].1.text);
        assert Sections([w] + WrittenFiles(e[1..])) == [Section(w.0, w.1)] + Sections(WrittenFiles(e[1..]));
        assert ([Section(w.0, w.1)] + Sections(WrittenFiles(e[1..])))[1..] == Sections(WrittenFiles(e[1..]));
      }
    }
  }

  /** Two files, the second of which was given up on after its retries. */
  lemma BundleExample(x: string, y: string)
    ensures Bundled([("a.md", Returned(x)), ("b.md", NoText), ("c.md", Returned(y))]).text
         == "\n\n---\n# a.md\n\n" + x + "\n\n---\n# c.md\n\n" + y
  {
    var e := [("a.md", Returned(x)), ("b.md", NoText), ("c.md", Returned(y))];
    assert e[1..] == [("b.md", NoText), ("c.md", Returned(y))];
    assert e[1..][1..] == [("c.md", Returned(y))];
    assert Bundled([("c.md", Returned(y))]) == Bundle(Section("c.md", y), false);
    assert Bundled(e[1..]) == Bundle(Section("c.md", y), false);
    assert Bundled(e).text == Section("a.md", x) + Section("c.md", y);
  }

  /** `{folder['title']}.md`. */
  function OutputName(title: string): string
  {
    title + ".md"
  }

  predicate AllFolders(items: seq<DriveItem>)
  {
    forall i :: 0 <= i < |items| ==> items[i].Folder?
  }

  /** The output directory after one folder. */
  function Step(dir: map<string, string>, folder: DriveItem, drive: Drive): map<string, string>
    requires folder.Folder?
  {
    match FolderSpec(folder.children, drive)
    case Skipped => dir
    case Wrote(c) => dir[OutputName(folder.title) := c]
    case Aborted(p) => dir[OutputName(folder.title) := p]
  }

  /** The folder loop of `main` from directory `dir`: the final directory, and
      whether an exception ended the run. */
  function MergeAll(dir: map<string, string>, folders: seq<DriveItem>, drive: Drive): (map<string, string>, bool)
    requires AllFolders(folders)
    decreases |folders|
  {
    if folders == [] then (dir, false)
    else if FolderSpec(folders[0].children, drive).Aborted? then (Step(dir, folders[0], drive), true)
    else MergeAll(Step(dir, folders[0], drive), folders[1..], drive)
  }

  datatype MainRun = NoFolders | Finished(outputs: map<string, string>) | Crashed(outputs: map<string, string>)

  /** `main()` on the top-level folders the listing returned, with `dir` the
      files already in the output directory: no folder exits at once, and
      otherwise every folder is merged in turn until one raises. */
  method MergeMarkdownMain(topFolders: seq<DriveItem>, drive: Drive, dir: map<string, string>) returns (run: MainRun)
    requires AllFolders(topFolders)
    ensures run == NoFolders <==> topFolders == []
    ensures run != NoFolders ==>
      (run.Crashed? <==> MergeAll(dir, topFolders, drive).1) && run.outputs == MergeAll(dir, topFolders, drive).0
  {
    if topFolders == [] {
      return NoFolders;
    }
    var files := dir;
    var i := 0;
    while i < |topFolders|
      invariant 0 <= i <= |topFolders|
      invariant MergeAll(dir, topFolders, drive) == MergeAll(files, topFolders[i..], drive)
    {
      var folder := topFolders[i];
      var out := MergeFolder(folder, drive);
      assert topFolders[i..][1..] == topFolders[i + 1..];
      if out.Aborted? {
        return Crashed(files[OutputName(folder.title) := out.partial]);
      } else if out.Wrote? {
        files := files[OutputName(folder.title) := out.content];
      }
      i := i + 1;
    }
    return Finished(files);
  }

  /** The run crashes exactly when some folder's bundling raised. */
  lemma {:induction false} CrashIff(dir: map<string, string>, folders: seq<DriveItem>, drive: Drive)
    requires AllFolders(folders)
    ensures MergeAll(dir, folders, drive).1 <==>
      exists i :: 0 <= i < |folders| && FolderSpec(folders[i].children, drive).Aborted?
    decreases |folders|
  {
    if folders != [] && !FolderSpec(folders[0].children, drive).Aborted? {
      var rest := folders[1..];
      CrashIff(Step(dir, folders[0], drive), rest, drive);
      if MergeAll(dir, folders, drive).1 {
        var k :| 0 <= k < |rest| && FolderSpec(rest[k].children, drive).Aborted?;
        assert folders[k + 1] == rest[k];
      } else {
        forall i | 0 <= i < |folders|
          ensures !FolderSpec(folders[i].children, drive).Aborted?
        {
          if i > 0 {
            assert folders[i] == rest[i - 1];
          }
        }
      }
    }
  }

  /** A name no folder writes keeps whatever the directory held: a folder
      without Markdown files leaves an older bundle of the same name alone. */
  lemma {:induction false} UntouchedKept(dir: map<string, string>, folders: seq<DriveItem>, drive: Drive, name: string)
    requires AllFolders(folders)
    requires forall j :: 0 <= j < |folders| && OutputName(folders[j].title) == name ==>
      FolderSpec(folders[j].children, drive).Skipped?
    ensures name in MergeAll(dir, folders, drive).0 <==> name in dir
    ensures name in dir ==> MergeAll(dir, folders, drive).0[name] == dir[name]
    decreases |folders|
  {
    if folders != [] {
      assert forall j :: 0 <= j < |folders[1..]| ==> folders[1..][j] == folders[j + 1];
      if !FolderSpec(folders[0].children, drive).Aborted? {
        UntouchedKept(Step(dir, folders[0], drive), folders[1..], drive, name);
      }
    }
  }

  /** Folders with the same title write the same file, so in a run without a
      crash the last one that wrote it wins. */
  lemma {:induction false} LastWriterWins(dir: map<string, string>, folders: seq<DriveItem>, drive: Drive, i: nat)
    requires AllFolders(folders) && i < |folders|
    requires forall j :: 0 <= j < |folders| ==> !FolderSpec(folders[j].children, drive).Aborted?
    requires FolderSpec(folders[i].children, drive).Wrote?
    requires forall j :: i < j < |folders| && OutputName(folders[j].title) == OutputName(folders[i].title) ==>
      FolderSpec(folders[j].children, drive).Skipped?
    ensures OutputName(folders[i].title) in MergeAll(dir, folders, drive).0
    ensures MergeAll(dir, folders, drive).0[OutputName(folders[i].title)] == FolderSpec(folders[i].children, drive).content
    decreases |folders|
  {
    assert forall j :: 0 <= j < |folders[1..]| ==> folders[1..][j] == folders[j + 1];
    if i == 0 {
      UntouchedKept(Step(dir, folders[0], drive), folders[1..], drive, OutputName(folders[0].title));
    } else {
      LastWriterWins(Step(dir, folders[0], drive), folders[1..], drive, i - 1);
    }
  }
}
