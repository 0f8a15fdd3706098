/**
 * The Markdown merge tool: the Markdown files of a folder, in natural
 * order of their paths and without the output file itself, are joined into
 * one document, each non-blank file contributing an optional `## name`
 * header, its stripped content and a separator. The folder listing arrives
 * as a sequence of files with their contents; the answers to the tool's
 * questions arrive as strings.
 */
module MergeMd {
  import opened Wrappers
  import opened Text
  import opened Sorting
  import opened NaturalSort

  /**
   * A Markdown file found by the glob: its full path (the sort key), its
   * resolved path (compared with the output file), its path relative to
   * the input folder, its name without extension, and its content.
   */
  datatype MdFile = MdFile(path: string, resolved: string, relative: string, stem: string, content: string)

  /** The three switches of `merge_markdown_files`. */
  datatype Options = Options(separator: bool, header: bool, recursive: bool)

  function MdPathKey(f: MdFile): seq<KeyPart> {
    NaturalSortKey(f.path)
  }

  /** `md_files.sort(key=lambda x: natural_sort_key(str(x)))` */
  function SortMd(files: seq<MdFile>): seq<MdFile> {
    SortBy(files, MdPathKey, KeyLess)
  }

  /** `[f for f in md_files if f.resolve() != output_path.resolve()]` */
  function Kept(files: seq<MdFile>, output: string): (r: seq<MdFile>)
    ensures |r| <= |files|
    ensures forall f :: f in r <==> f in files && f.resolved != output
  {
    if files == [] then []
    else
      assert files == files[..|files| - 1] + [files[|files| - 1]];
      Kept(files[..|files| - 1], output) + (if files[|files| - 1].resolved != output then [files[|files| - 1]] else [])
  }

  /** `## name`, the relative path in recursive mode, else the file's stem; nothing when headers are off. */
  function Header(opts: Options, f: MdFile): seq<string> {
    if opts.header then ["## " + (if opts.recursive then f.relative else f.stem) + "\n\n"] else []
  }

  /** The separator after the file at 0-based position `k` of `n`: a rule unless it is the last file or rules are off. */
  function Separator(opts: Options, k: nat, n: nat): string {
    if opts.separator && k + 1 < n then "\n\n---\n\n" else "\n\n"
  }

  /** What the file at position `k` of `n` adds to the merged pieces: nothing when blank. */
  function FilePieces(opts: Options, f: MdFile, k: nat, n: nat): seq<string> {
    if Strip(f.content) == [] then [] else Header(opts, f) + [Strip(f.content)] + [Separator(opts, k, n)]
  }

  /** The merged pieces of the first `j` files. */
  function Pieces(opts: Options, files: seq<MdFile>, j: nat): seq<string>
    requires j <= |files|
  {
    if j == 0 then [] else Pieces(opts, files, j - 1) + FilePieces(opts, files[j - 1], j - 1, |files|)
  }

  /** What `merge_markdown_files` writes: nothing when no file is left, else the pieces joined by line breaks. */
  function Merge(files: seq<MdFile>, output: string, opts: Options): Option<string> {
    var kept := Kept(SortMd(files), output);
    if kept == [] then None else Some(Join("\n", Pieces(opts, kept, |kept|)))
  }

  lemma PiecesStep(opts: Options, files: seq<MdFile>, i: nat, next: nat)
    requires i < |files| && next == i + 1
    ensures Pieces(opts, files, next) == Pieces(opts, files, i) + FilePieces(opts, files[i], i, |files|)
  {
  }

  /** One turn of the merge loop: a blank file is skipped, else header, stripped content and separator are added. */
  method AddFile(opts: Options, f: MdFile, i: nat, n: nat) returns (piece: seq<string>)
    ensures piece == FilePieces(opts, f, i, n)
  {
    piece := [];
    var content := f.content;
    if Strip(content) == [] {
      return;
    }
    if opts.header {
      var header;
      if opts.recursive {
        header := "## " + f.relative + "\n\n";
      } else {
        header := "## " + f.stem + "\n\n";
      }
      piece := piece + [header];
    }
    piece := piece + [Strip(content)];
    if opts.separator && i + 1 < n {
      piece := piece + ["\n\n---\n\n"];
    } else {
      piece := piece + ["\n\n"];
    }
  }

  /** `merge_markdown_files` once the folder is listed and the files are read. */
  method MergeMarkdownFiles(files: seq<MdFile>, output: string, opts: Options) returns (written: Option<string>)
    ensures written == Merge(files, output, opts)
  {
    var sorted := SortMd(files);
    var kept := Kept(sorted, output);
    if |kept| == 0 {
      return None;
    }
    var merged: seq<string> := [];
    var i := 0;
    while i < |kept|
      invariant i <= |kept|
      invariant merged == Pieces(opts, kept, i)
    {
      var piece := AddFile(opts, kept[i], i, |kept|);
      var next := i + 1;
      PiecesStep(opts, kept, i, next);
      merged := merged + piece;
      i := next;
    }
    written := Some(Join("\n", merged));
  }

  // ---------------------------------------------------------------------
  // Properties of the merge
  // ---------------------------------------------------------------------

  /** The filter keeps the order of the files it keeps. */
  lemma {:induction false} KeptSorted(files: seq<MdFile>, output: string)
    requires SortedBy(files, MdPathKey, KeyLess)
    ensures SortedBy(Kept(files, output), MdPathKey, KeyLess)
  {
    if files != [] {
      var init := files[..|files| - 1];
      var last := files[|files| - 1];
      assert SortedBy(init, MdPathKey, KeyLess);
      KeptSorted(init, output);
      var r := Kept(init, output);
      if last.resolved != output {
        forall i | 0 <= i < |r|
          ensures !KeyLess(MdPathKey(last), MdPathKey(r[i]))
        {
          assert r[i] in init;
          var j :| 0 <= j < |init| && init[j] == r[i];
          assert files[j] == r[i];
        }
        SortedBySnoc(r, last, MdPathKey, KeyLess);
      }
    }
  }

  /**
   * The files are merged in natural order of their paths, the output file
   * left out and every other file kept; nothing is written when no other
   * file is found.
   */
  lemma MergeOrder(files: seq<MdFile>, output: string)
    ensures var kept := Kept(SortMd(files), output);
      && SortedBy(kept, MdPathKey, KeyLess)
      && (forall f :: f in kept <==> f in files && f.resolved != output)
    ensures forall opts :: Merge(files, output, opts).None? <==> forall f :: f in files ==> f.resolved == output
  {
    var sorted := SortMd(files);
    KeyLessIsStrictTotalOrder();
    SortBySorted(files, MdPathKey, KeyLess);
    KeptSorted(sorted, output);
    forall f
      ensures f in sorted <==> f in files
    {
      assert f in sorted <==> f in multiset(sorted);
      assert f in files <==> f in multiset(files);
    }
  }

  /**
   * A blank file adds nothing; any other file adds its header when headers
   * are on, its stripped content and then its separator, which is a rule
   * exactly when rules are on and it is not the last file of the list —
   * blank files after it included.
   */
  lemma FilePiecesShape(opts: Options, f: MdFile, k: nat, n: nat)
    ensures FilePieces(opts, f, k, n) == [] <==> IsBlank(f.content)
    ensures !IsBlank(f.content) ==>
      var p := FilePieces(opts, f, k, n);
      && |p| == (if opts.header then 3 else 2)
      && p[|p| - 2] == Strip(f.content)
      && (p[|p| - 1] == "\n\n---\n\n" <==> opts.separator && k + 1 < n)
  {
    IsBlankStrip(f.content);
  }

  /** The file pieces of each file, in order. */
  function PiecesList(opts: Options, files: seq<MdFile>): (r: seq<seq<string>>)
    ensures |r| == |files|
    ensures forall k :: 0 <= k < |files| ==> r[k] == FilePieces(opts, files[k], k, |files|)
  {
    seq(|files|, k requires 0 <= k < |files| => FilePieces(opts, files[k], k, |files|))
  }

  /** The merged pieces are the pieces of each file, one file after another. */
  lemma {:induction false} PiecesFlatten(opts: Options, files: seq<MdFile>, j: nat)
    requires j <= |files|
    ensures Pieces(opts, files, j) == Flatten(PiecesList(opts, files)[..j])
  {
    if j > 0 {
      var parts := PiecesList(opts, files);
      PiecesFlatten(opts, files, j - 1);
      PrefixSnoc(parts, j - 1, parts[j - 1]);
      FlattenAppend(parts[..j - 1], parts[j - 1]);
    }
  }

  /**
   * Whether the rule after a file is written depends on its position in
   * the whole list: when the last file is blank, the document ends with a
   * rule after the file before it.
   */
  lemma TrailingRule(opts: Options, files: seq<MdFile>)
    requires opts.separator && |files| >= 2
    requires IsBlank(files[|files| - 1].content) && !IsBlank(files[|files| - 2].content)
    ensures var p := Pieces(opts, files, |files|);
      p != [] && p[|p| - 1] == "\n\n---\n\n"
  {
    var n := |files|;
    var a := n - 2;
    var b := n - 1;
    FilePiecesShape(opts, files[b], b, n);
    FilePiecesShape(opts, files[a], a, n);
    var last := FilePieces(opts, files[a], a, n);
    PiecesStep(opts, files, a, b);
    PiecesStep(opts, files, b, n);
    assert Pieces(opts, files, n) == Pieces(opts, files, a) + last + [];
  }

  // ---------------------------------------------------------------------
  // The answers read by `main`
  // ---------------------------------------------------------------------

  /** The output name: `merged.md` when none is given, `.md` added when missing. */
  function OutputName(answer: string): (name: string)
    ensures EndsWith(name, ".md")
  {
    var o := Strip(answer);
    if o == [] then "merged.md"
    else if EndsWith(o, ".md") then o
    else o + ".md"
  }

  /** An answer already normalised is kept as it is: normalising twice is normalising once. */
  lemma OutputNameIdempotent(answer: string)
    ensures OutputName(OutputName(answer)) == OutputName(answer)
  {
    var o := Strip(answer);
    var name := OutputName(answer);
    if o == [] {
      StripTrimmed("merged.md");
    } else if EndsWith(o, ".md") {
      StripIdempotent(answer);
    } else {
      assert name[0] == o[0];
      assert name[|name| - 1] == 'd';
      StripTrimmed(name);
    }
  }

  /** A given name that ends in `.md` is used as it is, any other gets `.md` added; the default is `merged.md`. */
  lemma OutputNameCases(answer: string)
    ensures Strip(answer) == [] ==> OutputName(answer) == "merged.md"
    ensures Strip(answer) != [] ==> StartsWith(OutputName(answer), Strip(answer))
    ensures EndsWith(Strip(answer), ".md") ==> OutputName(answer) == Strip(answer)
  {
    var o := Strip(answer);
    if o != [] && !EndsWith(o, ".md") {
      assert (o + ".md")[..|o|] == o;
    }
  }

  /** The normalised form of an answer: stripped and lower-cased. */
  function Answer(answer: string): string {
    Lower(Strip(answer))
  }

  /** `recursive_choice in ('y', 'yes', '是')` */
  predicate WantsRecursion(answer: string) {
    var a := Answer(answer);
    a == "y" || a == "yes" || a == "是"
  }

  /** `choice not in ('n', 'no', '否')` */
  predicate KeepsOption(answer: string) {
    var a := Answer(answer);
    !(a == "n" || a == "no" || a == "否")
  }

  /** A yes never switches an option off, and a no never switches recursion on. */
  lemma AnswersConsistent(answer: string)
    ensures WantsRecursion(answer) ==> KeepsOption(answer)
    ensures !KeepsOption(answer) ==> !WantsRecursion(answer)
  {
  }

  /** With no answer, recursion stays off and header and separator stay on. */
  lemma AnswerDefaults(answer: string)
    requires IsBlank(answer)
    ensures !WantsRecursion(answer) && KeepsOption(answer)
  {
    IsBlankStrip(answer);
  }

  /** Answers are read regardless of letter case. */
  lemma AnswerCaseInsensitive()
    ensures WantsRecursion("YES") && !KeepsOption("No")
  {
    StripTrimmed("YES");
    StripTrimmed("No");
    assert Lower("YES") == "yes";
    assert Lower("No") == "no";
  }
}
