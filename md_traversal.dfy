/** merge_markdown.py, `recurse_md_files`: the Markdown files below a Drive
    folder, depth first, in listing order. The Drive listing is given as a
    tree: a folder holds the items the `'<id>' in parents` query returns. */
module MdTraversal {
  import Format

  datatype DriveItem = Folder(title: string, children: seq<DriveItem>) | File(title: string, id: string)

  /** A `(title, id)` pair yielded by the traversal. */
  datatype MdFile = MdFile(title: string, id: string)

  /** `title.lower().endswith('.md')`. */
  predicate IsMarkdownTitle(title: string)
  {
    var l := Format.Lower(title);
    |l| >= 3 && l[|l| - 3..] == ".md"
  }

  /** The generator as a list: a folder is replaced by the files below it, a
      file is kept when its title ends in `.md` in any case. */
  function RecurseMdFiles(items: seq<DriveItem>): (r: seq<MdFile>)
    ensures forall k :: 0 <= k < |r| ==> IsMarkdownTitle(r[k].title)
    decreases items
  {
    if items == [] then []
    else
      var rest := RecurseMdFiles(items[1..]);
      match items[0]
      case Folder(_, children) =>
        RecurseMdFiles(children) + rest
      case File(title, id) =>
        (if IsMarkdownTitle(title) then [MdFile(title, id)] else []) + rest
  }

  /** Every file of the tree, folders opened in place (pre-order). */
  function AllFiles(items: seq<DriveItem>): seq<MdFile>
    decreases items
  {
    if items == [] then []
    else match items[0]
      case Folder(_, children) => AllFiles(children) + AllFiles(items[1..])
      case File(title, id) => [MdFile(title, id)] + AllFiles(items[1..])
  }

  /** The Markdown files of a list, in order. */
  function FilterMd(fs: seq<MdFile>): seq<MdFile>
  {
    if fs == [] then []
    else (if IsMarkdownTitle(fs[0].title) then [fs[0]] else []) + FilterMd(fs[1..])
  }

  lemma {:induction false} FilterMdAppend(a: seq<MdFile>, b: seq<MdFile>)
    ensures FilterMd(a + b) == FilterMd(a) + FilterMd(b)
  {
    if a == [] {
      assert a + b == b;
    } else {
      var h := if IsMarkdownTitle(a[0].title) then [a[0]] else [];
      assert (a + b)[0] == a[0];
      assert (a + b)[1..] == a[1..] + b;
      calc {
        FilterMd(a + b);
        h + FilterMd(a[1..] + b);
        { FilterMdAppend(a[1..], b); }
        h + (FilterMd(a[1..]) + FilterMd(b));
        (h + FilterMd(a[1..])) + FilterMd(b);
      }
    }
  }

  /** The traversal is the Markdown filter of the depth-first list of all
      files: nothing reordered, nothing but non-Markdown files dropped. */
  lemma {:induction false} TraversalIsFilteredPreorder(items: seq<DriveItem>)
    ensures RecurseMdFiles(items) == FilterMd(AllFiles(items))
    decreases items
  {
    if items != [] {
      TraversalIsFilteredPreorder(items[1..]);
      match items[0]
      case Folder(_, children) =>
        TraversalIsFilteredPreorder(children);
        FilterMdAppend(AllFiles(children), AllFiles(items[1..]));
      case File(title, id) =>
        FilterMdAppend([MdFile(title, id)], AllFiles(items[1..]));
        assert FilterMd([MdFile(title, id)]) == if IsMarkdownTitle(title) then [MdFile(title, id)] else [];
    }
  }

  lemma {:induction false} FilterMdMembers(fs: seq<MdFile>, f: MdFile)
    ensures f in FilterMd(fs) <==> f in fs && IsMarkdownTitle(f.title)
  {
    if fs != [] {
      FilterMdMembers(fs[1..], f);
      assert fs == [fs[0]] + fs[1..];
    }
  }

  /** A file is yielded exactly when it is somewhere in the tree and its title
      ends in `.md`; a tree without such a file yields nothing. */
  lemma TraversalMembers(items: seq<DriveItem>, f: MdFile)
    ensures f in RecurseMdFiles(items) <==> f in AllFiles(items) && IsMarkdownTitle(f.title)
  {
    TraversalIsFilteredPreorder(items);
    FilterMdMembers(AllFiles(items), f);
  }

  /** The test ignores case: `Notes.MD` is collected, `notes.txt` and `md` are not. */
  lemma MarkdownTitleExamples()
    ensures IsMarkdownTitle("Notes.MD")
    ensures !IsMarkdownTitle("notes.txt")
    ensures !IsMarkdownTitle("md")
  {
    var l := Format.Lower("Notes.MD");
    assert l[|l| - 3..] == ".md";
    var t := Format.Lower("notes.txt");
    assert t[|t| - 3] == 't';
  }
}
