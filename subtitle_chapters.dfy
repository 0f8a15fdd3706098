/**
 * The `main` of both subtitle converters: each chapter folder becomes one
 * Markdown document holding, in natural order, a section per subtitle file
 * with the file's converted text. Folders and files arrive as values: the
 * folder listing is a sequence of chapter folders, each with the subtitle
 * files its glob found and their contents.
 */
module SubtitleChapters {
  import opened Wrappers
  import opened Text
  import opened Sorting
  import opened NaturalSort
  import opened Subtitles

  /**
   * Which converter runs: `srt_to_md.py`, or `vvt_to_md.py` with its header
   * skip as written (`corrected` false) or as evidently intended (true).
   */
  datatype Format = Srt | Vtt(corrected: bool)

  /** A subtitle file: its full path (the sort key), its name without extension, and its content. */
  datatype SubtitleFile = SubtitleFile(path: string, stem: string, content: string)

  /** A chapter folder: its full path (the sort key), its name, and the subtitle files found in it. */
  datatype ChapterDir = ChapterDir(path: string, name: string, files: seq<SubtitleFile>)

  /** A Markdown file written next to the chapter folders. */
  datatype MarkdownFile = MarkdownFile(name: string, content: string)

  /** The text one file converts to. */
  function FileText(format: Format, content: string): string {
    match format
    case Srt => SrtText(content)
    case Vtt(corrected) => VttText(content, corrected)
  }

  /** `process_srt_file` / `process_vtt_file` on a file's content. */
  method ConvertFile(format: Format, content: string) returns (text: string)
    ensures text == FileText(format, content)
  {
    var lines := Split(content, '\n');
    match format {
      case Srt =>
        text := ProcessSrt(lines);
      case Vtt(corrected) =>
        text := ProcessVtt(lines, corrected);
    }
  }

  /**
   * What the WebVTT converter makes of a well-formed file whose first cue has
   * no identifier and a timing line holding `:`: as written, the texts of
   * every cue but the first; corrected, the texts of all of them.
   */
  lemma VttFileText(header: seq<string>, cues: seq<Cue>, corrected: bool)
    requires forall k :: 0 <= k < |header| ==> IsHeaderField(header[k])
    requires forall k :: 0 <= k < |cues| ==> WellFormedVttCue(cues[k])
    requires forall k :: 0 <= k < |RenderVtt(header, cues)| ==> '\n' !in RenderVtt(header, cues)[k]
    requires cues != [] && ':' in cues[0].timing
    requires cues[0].text != [] && ':' !in cues[0].text[0]
    ensures FileText(Vtt(corrected), Join("\n", RenderVtt(header, cues)))
      == Join(" ", CueTexts(if corrected then cues else cues[1..]))
  {
    if corrected {
      VttFileRoundTrip(header, cues);
    } else {
      AsWrittenDropsFirstCue(header, cues);
      SplitJoin(RenderVtt(header, cues), '\n');
    }
  }

  function FilePathKey(f: SubtitleFile): seq<KeyPart> {
    NaturalSortKey(f.path)
  }

  function DirPathKey(d: ChapterDir): seq<KeyPart> {
    NaturalSortKey(d.path)
  }

  /** `files.sort(key=natural_sort_key)` */
  function SortFiles(files: seq<SubtitleFile>): seq<SubtitleFile> {
    SortBy(files, FilePathKey, KeyLess)
  }

  /** `chapter_dirs.sort(key=natural_sort_key)` */
  function SortDirs(dirs: seq<ChapterDir>): seq<ChapterDir> {
    SortBy(dirs, DirPathKey, KeyLess)
  }

  /** The section of one file: `## stem`, a blank line, the text, a blank line. */
  function SectionText(format: Format, f: SubtitleFile): string {
    "## " + f.stem + "\n\n" + FileText(format, f.content) + "\n\n"
  }

  /** The sections of `files`, in the given order. */
  function Sections(format: Format, files: seq<SubtitleFile>): string {
    if files == [] then []
    else Sections(format, files[..|files| - 1]) + SectionText(format, files[|files| - 1])
  }

  function Title(name: string): string {
    "# " + name + "\n\n"
  }

  /** The document of one chapter: nothing without subtitle files, else the title and a section per file in natural order. */
  function ChapterMarkdown(format: Format, name: string, files: seq<SubtitleFile>): Option<string> {
    if files == [] then None else Some(Title(name) + Sections(format, SortFiles(files)))
  }

  /** The per-chapter loop body of `main`: sort, give up on an empty folder, append a section per file. */
  method AssembleChapter(format: Format, name: string, files: seq<SubtitleFile>) returns (doc: Option<string>)
    ensures doc == ChapterMarkdown(format, name, files)
  {
    var content := Title(name);
    var sorted := SortFiles(files);
    if |sorted| == 0 {
      return None;
    }
    var k := 0;
    while k < |sorted|
      invariant k <= |sorted|
      invariant content == Title(name) + Sections(format, sorted[..k])
    {
      var text := ConvertFile(format, sorted[k].content);
      var next := k + 1;
      PrefixSnoc(sorted, k, sorted[k]);
      assert sorted[..next][..k] == sorted[..k];
      AppendAssoc(Title(name), Sections(format, sorted[..k]), SectionText(format, sorted[k]));
      content := content + ("## " + sorted[k].stem + "\n\n" + text + "\n\n");
      k := next;
    }
    assert sorted[..k] == sorted;
    doc := Some(content);
  }

  /** What one chapter folder is written as: nothing without subtitle files, else its document. */
  function Written(format: Format, d: ChapterDir): seq<MarkdownFile> {
    match ChapterMarkdown(format, d.name, d.files)
    case None => []
    case Some(doc) => [MarkdownFile(d.name + ".md", doc)]
  }

  /** The Markdown files written for `dirs`, taken in the given order. */
  function ChapterFiles(format: Format, dirs: seq<ChapterDir>): seq<MarkdownFile> {
    if dirs == [] then []
    else ChapterFiles(format, dirs[..|dirs| - 1]) + Written(format, dirs[|dirs| - 1])
  }

  lemma ChapterFilesStep(format: Format, dirs: seq<ChapterDir>, k: nat, next: nat)
    requires k < |dirs| && next == k + 1
    ensures ChapterFiles(format, dirs[..next]) == ChapterFiles(format, dirs[..k]) + Written(format, dirs[k])
  {
    assert dirs[..next][..k] == dirs[..k];
  }

  /** What `main` writes for the listed chapter folders. */
  function ConvertTree(format: Format, dirs: seq<ChapterDir>): seq<MarkdownFile> {
    ChapterFiles(format, SortDirs(dirs))
  }

  /** `main`: the chapter folders in natural order, one Markdown file for each that holds subtitle files. */
  method ConvertChapters(format: Format, dirs: seq<ChapterDir>) returns (written: seq<MarkdownFile>)
    ensures written == ConvertTree(format, dirs)
  {
    var sorted := SortDirs(dirs);
    written := [];
    var k := 0;
    while k < |sorted|
      invariant k <= |sorted|
      invariant written == ChapterFiles(format, sorted[..k])
    {
      var d := sorted[k];
      var doc := AssembleChapter(format, d.name, d.files);
      var next := k + 1;
      ChapterFilesStep(format, sorted, k, next);
      if doc.Some? {
        written := written + [MarkdownFile(d.name + ".md", doc.value)];
      }
      k := next;
    }
    assert sorted[..k] == sorted;
  }

  // ---------------------------------------------------------------------
  // Properties
  // ---------------------------------------------------------------------

  /** The files of a chapter are taken in natural order of their paths, all of them, and files of equal key in listing order. */
  lemma SortFilesCorrect(files: seq<SubtitleFile>, key: seq<KeyPart>)
    ensures var sorted := SortFiles(files);
      && SortedBy(sorted, FilePathKey, KeyLess)
      && multiset(sorted) == multiset(files)
      && WithKey(sorted, FilePathKey, key) == WithKey(files, FilePathKey, key)
  {
    KeyLessIsStrictTotalOrder();
    SortBySorted(files, FilePathKey, KeyLess);
    SortByStable(files, FilePathKey, KeyLess, key);
  }

  /** The chapter folders are taken in natural order of their paths, all of them, and folders of equal key in listing order. */
  lemma SortDirsCorrect(dirs: seq<ChapterDir>, key: seq<KeyPart>)
    ensures var sorted := SortDirs(dirs);
      && SortedBy(sorted, DirPathKey, KeyLess)
      && multiset(sorted) == multiset(dirs)
      && WithKey(sorted, DirPathKey, key) == WithKey(dirs, DirPathKey, key)
  {
    KeyLessIsStrictTotalOrder();
    SortBySorted(dirs, DirPathKey, KeyLess);
    SortByStable(dirs, DirPathKey, KeyLess, key);
  }

  /** The section of each file, in order. */
  function SectionList(format: Format, files: seq<SubtitleFile>): (r: seq<string>)
    ensures |r| == |files|
    ensures forall k :: 0 <= k < |files| ==> r[k] == SectionText(format, files[k])
  {
    seq(|files|, k requires 0 <= k < |files| => SectionText(format, files[k]))
  }

  /** The sections are the section of each file, one after another. */
  lemma {:induction false} SectionsFlatten(format: Format, files: seq<SubtitleFile>)
    ensures Sections(format, files) == Flatten(SectionList(format, files))
  {
    if files != [] {
      var init := files[..|files| - 1];
      var last := SectionText(format, files[|files| - 1]);
      SectionsFlatten(format, init);
      var parts := SectionList(format, files);
      var initParts := SectionList(format, init);
      forall k | 0 <= k < |init|
        ensures parts[k] == initParts[k]
      {
        assert init[k] == files[k];
      }
      SnocOf(parts, initParts, last);
      FlattenAppend(initParts, last);
    }
  }

  /**
   * A chapter yields a document exactly when it holds subtitle files; the
   * document is the title followed by the section of each file, in natural
   * order of the files' paths.
   */
  lemma ChapterMarkdownShape(format: Format, name: string, files: seq<SubtitleFile>)
    ensures ChapterMarkdown(format, name, files).None? <==> files == []
    ensures files != [] ==>
      ChapterMarkdown(format, name, files) == Some("# " + name + "\n\n" + Flatten(SectionList(format, SortFiles(files))))
  {
    SectionsFlatten(format, SortFiles(files));
  }

  /** The document a chapter folder is written as. */
  function MarkdownOf(format: Format, d: ChapterDir): MarkdownFile
    requires d.files != []
  {
    MarkdownFile(d.name + ".md", ChapterMarkdown(format, d.name, d.files).value)
  }

  /** Every folder holding subtitle files is written, and nothing else is. */
  lemma {:induction false} ChapterFilesMembers(format: Format, dirs: seq<ChapterDir>)
    ensures forall d :: d in dirs && d.files != [] ==> MarkdownOf(format, d) in ChapterFiles(format, dirs)
    ensures forall m :: m in ChapterFiles(format, dirs) ==> exists d :: d in dirs && d.files != [] && m == MarkdownOf(format, d)
  {
    if dirs != [] {
      var init := dirs[..|dirs| - 1];
      var d := dirs[|dirs| - 1];
      ChapterFilesMembers(format, init);
      var before := ChapterFiles(format, init);
      var w := Written(format, d);
      assert ChapterFiles(format, dirs) == before + w;
      assert d.files != [] ==> w == [MarkdownOf(format, d)];
      assert d.files == [] ==> w == [];
      forall e | e in dirs && e.files != []
        ensures MarkdownOf(format, e) in ChapterFiles(format, dirs)
      {
        if e != d {
          assert e in init;
        }
      }
      forall m | m in ChapterFiles(format, dirs)
        ensures exists e :: e in dirs && e.files != [] && m == MarkdownOf(format, e)
      {
        if m in before {
          var e :| e in init && e.files != [] && m == MarkdownOf(format, e);
          assert e in dirs;
        } else {
          assert m in w;
          assert d in dirs;
        }
      }
    }
  }

  /** The files `main` writes: one per listed folder that holds subtitle files, each folder's own document. */
  lemma ConvertTreeMembers(format: Format, dirs: seq<ChapterDir>)
    ensures forall d :: d in dirs && d.files != [] ==> MarkdownOf(format, d) in ConvertTree(format, dirs)
    ensures forall m :: m in ConvertTree(format, dirs) ==> exists d :: d in dirs && d.files != [] && m == MarkdownOf(format, d)
  {
    var sorted := SortDirs(dirs);
    SortDirsCorrect(dirs, []);
    ChapterFilesMembers(format, sorted);
    forall d | d in dirs
      ensures d in sorted
    {
      assert d in multiset(dirs);
    }
    forall d | d in sorted
      ensures d in dirs
    {
      assert d in multiset(sorted);
    }
  }
}
