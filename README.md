# toolkit — a verified model of the document tools

This project models, in Dafny, the five document tools of the toolkit
repository, and proves what each of them promises:

- **split_pdf_by_chapters.py** classifies the top-level bookmarks of a PDF as
  chapters (level 1) or sections (level 2). It builds a chapter/section
  hierarchy with inclusive page ranges and writes one PDF per chapter or one
  per section, named `NN-title.pdf` or `NN-MM-title.pdf`.
- **split_pdf_by_bookmarks.py** keeps the top-level bookmarks whose page
  lookup succeeds and sorts them by page (stably). Each one becomes a part
  that runs to the page before the next part. Each part is written with the
  bookmarks that fall inside it, rebased to the part, or with one fallback
  bookmark. It is named `[prefix_]NN-title.pdf`.
- **srt_to_md.py** and **vvt_to_md.py** reduce a subtitle file to the texts
  of its cues, joined by single spaces. They then write one Markdown document
  per chapter folder, with a `## stem` section per subtitle file, in natural
  order.
- **merge_md.py** joins the Markdown files of a folder into one document in
  natural order of their paths. It leaves out the output file itself and
  blank files, and adds optional `## name` headers and `---` rules.

The modules follow the program:

- `Text` models the Python string operations the tools use (`strip`,
  `split`, `join`, `lower`, `isdigit`, `int`, `{i:02d}`).
- `Sorting` models `list.sort(key=...)` as a stable sort. It proves the sort
  is sorted, a permutation and stable.
- `NaturalSort` models the shared `natural_sort_key` and Python's ordering of
  the keys it produces.
- `Outline` models the outline entries, `create_valid_filename`, page
  selection and the numbered file names that both PDF splitters share.
- `SplitByChapters`, `SplitByBookmarks`, `Subtitles`, `SubtitleChapters` and
  `MergeMd` model one tool each. The SRT and VTT scanners share `Subtitles`;
  their `main` loops share `SubtitleChapters`.

Code that loops (the scanners, the collection loops, the writers) is written
as methods with loops. Each method is proved equal to a specification
function, and the properties are proved about that function.

Where the code departs from what its comments and its evident purpose
promise (see "## Findings"), the operation takes a `corrected` flag:
`false` models the code as written, `true` the intended behaviour, and
lemmas prove what each does.

The PDF reader and the file system are given as values:

- an outline is a sequence of `OutlineItem`s;
- a page lookup is an `Option<nat>` (`None` when it raises);
- a document is its page count;
- a folder listing is a sequence of files with their contents;
- a written PDF is its file name, the pages it receives and its outline
  items.

## Model

| member | source | states |
|---|---|---|
| Text.Strip | srt_to_md.py:41-42 | `str.strip()`: empty exactly for all-whitespace input, otherwise no whitespace at either end |
| Text.StripOffset | srt_to_md.py:42 | the stripped string is a contiguous window of the input with only whitespace outside it |
| Text.StripIdempotent | merge_md.py:117 | stripping twice is stripping once |
| Text.IsBlankStrip | merge_md.py:103 | `not content.strip()` holds exactly when every character is whitespace |
| Text.Split | srt_to_md.py:28 | `split('\n')`: one piece more than there are separators, and no piece holds the separator |
| Text.JoinSplit | srt_to_md.py:28 | joining the pieces of a split with the separator gives back the original text |
| Text.SplitJoin | srt_to_md.py:28 | splitting a join of separator-free pieces gives back the pieces |
| Text.Lower | split_pdf_by_chapters.py:27 | `lower()` maps each character to its lower-case form and keeps the length |
| Text.NatToDecimal | split_pdf_by_chapters.py:82 | decimal rendering of a number is all digits |
| Text.DecimalRoundTrip | merge_md.py:22 | `int()` of the decimal rendering of `n` is `n` |
| Text.ZeroPad2 | split_pdf_by_chapters.py:198 | `{i:02d}` is the decimal digits of `i`, with one leading `0` exactly when `i` is below 10, and reads back as `i` |
| Sorting.SortBy | merge_md.py:78 | the sort keeps every element with its multiplicity |
| Sorting.SortBySorted | merge_md.py:78 | the sorted list has no element whose key is below that of an earlier element |
| Sorting.SortByStable | merge_md.py:78 | elements with equal keys keep their relative order |
| NaturalSort.Segments | merge_md.py:23 | `re.split(r'(\d+)', s)` yields an odd number of pieces (text, digits, text, …) |
| NaturalSort.SegmentsFlatten | merge_md.py:23 | the pieces of the split concatenate back to the string |
| NaturalSort.SegmentsTextRuns | merge_md.py:23 | the pieces at even positions hold no digit |
| NaturalSort.SegmentsDigitRuns | merge_md.py:23 | the pieces at odd positions are all digits |
| NaturalSort.NaturalSortKey | merge_md.py:13-23 | the key alternates lower-cased text and integer parts, starting and ending with text, one part per piece |
| NaturalSort.KeyLessIsStrictTotalOrder | merge_md.py:78 | Python's list comparison of keys is irreflexive, transitive and total, so the sort is well defined |
| NaturalSort.LexLessTransitive | merge_md.py:78 | lexicographic comparison is transitive over a strict total order of elements |
| NaturalSort.LexLessTotal | merge_md.py:78 | of two different lists one is lexicographically smaller |
| NaturalSort.NaturalKeysNeverMixed | merge_md.py:22-23 | two keys never compare an integer with a string at the same position, so the comparison never raises |
| NaturalSort.KeyOfTextNumber | merge_md.py:22-23 | the key of a name followed by a number is the lower-cased name, the number's value, and an empty text |
| NaturalSort.NumberDecides | merge_md.py:17 | with equal text parts, the smaller number orders first |
| NaturalSort.File2BeforeFile10 | merge_md.py:17 | `file2` orders before `file10` under the natural key |
| NaturalSort.File10BeforeFile2AsText | merge_md.py:17 | compared as plain strings, `file10` orders before `file2` |
| Outline.ReplaceInvalid | split_pdf_by_chapters.py:144-145 | each of the nine characters Windows refuses in file names becomes `_`, every other is kept, and the length is kept |
| Outline.CreateValidFilename | split_pdf_by_chapters.py:132-146 | the file name holds no forbidden character, has no whitespace at either end, and is empty exactly when the title is all whitespace |
| Outline.CreateValidFilenameIsWindow | split_pdf_by_chapters.py:145-146 | the file name is a window of the sanitised title with only whitespace around it |
| Outline.CreateValidFilenameIdempotent | split_pdf_by_bookmarks.py:107-121 | sanitising a sanitised name changes nothing |
| Outline.CreateValidFilenameKeepsValid | split_pdf_by_bookmarks.py:119-121 | a title that is already valid and trimmed is kept as it is |
| Outline.PageSpan | split_pdf_by_chapters.py:192-194 | the pages a writer receives are exactly those from start to end that exist, in ascending order |
| Outline.SelectPages | split_pdf_by_chapters.py:192-194 | the page loop selects exactly that span |
| Outline.PageSpanAdjacent | split_pdf_by_chapters.py:192-194 | two adjacent ranges select together what their union selects |
| Outline.SpansJoin | split_pdf_by_bookmarks.py:181-188 | consecutive ranges hand out, together and in order, exactly the pages from the first start to the last end |
| Outline.NumberedName | split_pdf_by_chapters.py:197-198 | `NN-title.pdf` ends in `.pdf` and starts with the two-digit number and a dash |
| Outline.NumberedNameNumber | split_pdf_by_chapters.py:198 | the number reads back from the file name |
| Outline.SectionNameNumbers | split_pdf_by_chapters.py:253 | both the chapter and the section number read back from `NN-MM-title.pdf` |
| Outline.NumberedNamesDistinct | split_pdf_by_chapters.py:198 | different numbers give different file names, whatever the titles |
| SplitByChapters.TitleLevel | split_pdf_by_chapters.py:26-56 | the level is 0, 1 or 2 |
| SplitByChapters.TitleLevelClassifies | split_pdf_by_chapters.py:42-56 | a chapter keyword gives 1, then a section keyword gives 2; otherwise a digit-led title is 1 exactly with one `.` and 2 exactly with two or more |
| SplitByChapters.EmptyTitleLevel | split_pdf_by_chapters.py:26 | a bookmark without a title is never classified |
| SplitByChapters.LevelOfChineseChapter | split_pdf_by_chapters.py:31 | `第一章 总论` is a chapter |
| SplitByChapters.LevelOfUpperCasePart | split_pdf_by_chapters.py:27 | keywords match whatever the letter case (`PART I` is a chapter) |
| SplitByChapters.LevelChapterKeywordFirst | split_pdf_by_chapters.py:42-45 | a chapter keyword wins over a section keyword in the same title |
| SplitByChapters.ChapterTitleLevel | split_pdf_by_chapters.py:42-43 | a title starting with `Chapter` is a chapter |
| SplitByChapters.SectionTitleLevel | split_pdf_by_chapters.py:42-45 | `Section 1.1` holds no chapter keyword and is a section |
| SplitByChapters.NumberRun | split_pdf_by_chapters.py:48 | the longest prefix of the title made of digits and dots |
| SplitByChapters.NumberRunIs | split_pdf_by_chapters.py:48 | the leading run of `p + q` is exactly `p` when `p` is digits and dots and `q` does not go on with one |
| SplitByChapters.IntendedNumberLevel | split_pdf_by_chapters.py:48-54 | the intended numbered level is at most 2, and non-zero only for a title starting with a digit |
| SplitByChapters.IntendedTitleLevel | split_pdf_by_chapters.py:21-56 | the intended classifier differs from the one written only on digit-led titles without keywords |
| SplitByChapters.IntendedChapterNumber | split_pdf_by_chapters.py:21 | intended: one number closed by a `.` (`1. xxx`) is a chapter |
| SplitByChapters.IntendedSectionNumber | split_pdf_by_chapters.py:21 | intended: two numbers joined by a `.` (`1.1 xxx`, `1.1.1 xxx`) make a section, whatever follows |
| SplitByChapters.IntendedBareNumber | split_pdf_by_chapters.py:48 | intended: a number with no `.` after it is neither chapter nor section |
| SplitByChapters.AsWrittenTwoNumbers | split_pdf_by_chapters.py:49-54 | as written, `d.m rest` without keywords or further dots is a chapter, while the intended level is 2 |
| SplitByChapters.AsWrittenDottedSection | split_pdf_by_chapters.py:49-54 | as written, `1.1 Overview` is a chapter; intended, a section |
| SplitByChapters.BookmarkLevel | split_pdf_by_chapters.py:23-24 | an entry that is not a page bookmark has level 0, with either classifier |
| SplitByChapters.InfoAt | split_pdf_by_chapters.py:76-90 | an entry is recorded exactly when it is classified and its page lookup succeeds, with its own level and position |
| SplitByChapters.Records | split_pdf_by_chapters.py:76-90 | one record slot per outline entry, each that entry's record |
| SplitByChapters.RecognisedIsOutlineOrder | split_pdf_by_chapters.py:75-90 | the first loop keeps exactly the recordable entries, in outline order, each with its own record |
| SplitByChapters.UntitledNeverRecognised | split_pdf_by_chapters.py:81-82 | an untitled bookmark is never recorded, so the `Bookmark {i+1}` fallback title is never used |
| SplitByChapters.CollectRecognised | split_pdf_by_chapters.py:70-90 | the first loop collects the recognised records |
| SplitByChapters.Hierarchy | split_pdf_by_chapters.py:93-122 | closed form of the hierarchy: one chapter per chapter record |
| SplitByChapters.StepChapter | split_pdf_by_chapters.py:97-108 | a chapter record closes the previous chapter on the page before its own and opens an empty chapter running to the last page |
| SplitByChapters.StepSection | split_pdf_by_chapters.py:110-122 | a section record after a chapter closes the previous section on the page before its own and joins the current chapter, running to the last page |
| SplitByChapters.StepSkip | split_pdf_by_chapters.py:110 | a section record before any chapter leaves the hierarchy unchanged |
| SplitByChapters.BuildHierarchy | split_pdf_by_chapters.py:93-122 | the second loop builds exactly the closed-form hierarchy |
| SplitByChapters.GetBookmarksHierarchy | split_pdf_by_chapters.py:59-129 | the hierarchy of the recognised records (classified as written or as intended); the final clamp leaves it unchanged |
| SplitByChapters.LastSectionOfLastChapter | split_pdf_by_chapters.py:124-127 | the last section of the last chapter already ends where its chapter ends |
| SplitByChapters.HierarchyCount | split_pdf_by_chapters.py:97-108 | there are as many chapters as chapter records |
| SplitByChapters.ChaptersAdjacent | split_pdf_by_chapters.py:100-105 | each chapter ends on the page before the next starts, and the last ends on the last page |
| SplitByChapters.SectionsAdjacent | split_pdf_by_chapters.py:119-120 | within a chapter each section ends on the page before the next section starts |
| SplitByChapters.AsWrittenLastSectionEnd | split_pdf_by_chapters.py:115-127 | as written, the last section of every chapter ends on the last page of the document |
| SplitByChapters.AsWrittenSectionOverruns | split_pdf_by_chapters.py:100-127 | a ten-page example (`Chapter 1`, `Section 1.1`, `Chapter 2`, each with the level its title gets) in which chapter 1 ends on page 4 but its section runs to page 9 |
| SplitByChapters.SectionOverrunsAt | split_pdf_by_chapters.py:100-127 | chapter, section, chapter: the first chapter is closed, but its section still runs to the end of the document |
| SplitByChapters.ClampLast | split_pdf_by_chapters.py:125-127 | the clamp keeps the chapter and all but its last section, and ends that section where the chapter ends |
| SplitByChapters.ClampSections | split_pdf_by_chapters.py:124-127 | the corrected clamp is applied to every chapter |
| SplitByChapters.ClampedSectionsTile | split_pdf_by_chapters.py:124-127 | after the corrected clamp the sections tile each chapter up to its end, and the chapter ranges are unchanged |
| SplitByChapters.ClampKeepsLastChapter | split_pdf_by_chapters.py:124-127 | on the last chapter the corrected clamp changes nothing, as the original clamp does |
| SplitByChapters.WriteChapterFile | split_pdf_by_chapters.py:189-203 | one chapter's file: its existing pages and the name `NN-title.pdf` |
| SplitByChapters.WriteSectionFile | split_pdf_by_chapters.py:242-259 | one section's file: its existing pages and the name `NN-MM-title.pdf` |
| SplitByChapters.WriteChapters | split_pdf_by_chapters.py:186-209 | split by chapter: one file per chapter, numbered from 1 |
| SplitByChapters.WriteSectionFiles | split_pdf_by_chapters.py:240-267 | one file per section of a chapter, numbered from 1 within the chapter |
| SplitByChapters.WriteChapterSections | split_pdf_by_chapters.py:214-267 | a chapter without sections is written whole; otherwise each section is written |
| SplitByChapters.WriteSections | split_pdf_by_chapters.py:211-267 | split by section: the files of each chapter in turn |
| SplitByChapters.PlanSplit | split_pdf_by_chapters.py:186-267 | level 1 splits by chapter, level 2 by section, any other level writes nothing |
| SplitByChapters.SplitPdf | split_pdf_by_chapters.py:149-267 | as written, the files for the hierarchy as built; corrected, for the hierarchy of the intended classifier with every last section clamped; nothing when no chapter is found |
| SplitByChapters.ChapterModeNamesDistinct | split_pdf_by_chapters.py:198 | in chapter mode no two files share a name |
| SplitByChapters.SectionFilesNumbered | split_pdf_by_chapters.py:240-253 | every file of chapter `i` in section mode leads with `i`, and their names are distinct |
| SplitByChapters.SectionModeNamesDistinct | split_pdf_by_chapters.py:211-253 | in section mode no two files share a name |
| SplitByChapters.ChapterModePages | split_pdf_by_chapters.py:192-194 | in chapter mode each file receives its chapter's span of pages |
| SplitByChapters.ChapterModeCoversPages | split_pdf_by_chapters.py:186-194 | for adjacent chapters, chapter mode hands out every existing page from the first start to the last end exactly once, in order |
| SplitByBookmarks.ValidAt | split_pdf_by_bookmarks.py:34-45 | an entry is kept exactly when it is a page bookmark whose lookup succeeds, at the looked-up page |
| SplitByBookmarks.ValidBookmarks | split_pdf_by_bookmarks.py:30-48 | no more bookmarks are kept than there are entries |
| SplitByBookmarks.ValidBookmarksMembers | split_pdf_by_bookmarks.py:31-48 | a bookmark is kept exactly when some top-level entry yields it |
| SplitByBookmarks.ValidBookmarksSound | split_pdf_by_bookmarks.py:34-42 | every kept bookmark comes from a top-level page bookmark at its own page |
| SplitByBookmarks.CollectValid | split_pdf_by_bookmarks.py:30-48 | the first loop collects exactly the valid bookmarks, in outline order |
| SplitByBookmarks.SortByPageCorrect | split_pdf_by_bookmarks.py:51 | the sort by page is ordered by page, keeps every bookmark, and keeps bookmarks of one page in outline order |
| SplitByBookmarks.PageRanges | split_pdf_by_bookmarks.py:54-62 | one range per sorted bookmark |
| SplitByBookmarks.GetBookmarksWithPages | split_pdf_by_bookmarks.py:12-63 | the ranges of the valid bookmarks sorted by page; nothing for an empty outline |
| SplitByBookmarks.PageRangesAdjacent | split_pdf_by_bookmarks.py:54-62 | each part keeps its bookmark's title and page, ends on the page before the next part, and the last ends on the last page |
| SplitByBookmarks.SortedRangesConsecutive | split_pdf_by_bookmarks.py:51-62 | after the sort the parts follow one another without gap or overlap |
| SplitByBookmarks.PartsCoverDocument | split_pdf_by_bookmarks.py:181-188 | when every bookmark points into the document, the parts hand out every page from the first bookmark's page to the end exactly once, in order |
| SplitByBookmarks.ProcessOutline | split_pdf_by_bookmarks.py:79-100 | `process_outline` appends, depth first, the page bookmarks of the subtree that fall in the window |
| SplitByBookmarks.ProcessItems | split_pdf_by_bookmarks.py:83-85 | the list case processes each item in turn with the same accumulator |
| SplitByBookmarks.GetNestedBookmarks | split_pdf_by_bookmarks.py:66-104 | the collected bookmarks are those of the whole outline inside the window, rebased, in depth-first order |
| SplitByBookmarks.WindowAppend | split_pdf_by_bookmarks.py:83-85 | collecting from two lists one after the other is collecting from their concatenation |
| SplitByBookmarks.WindowInPart | split_pdf_by_bookmarks.py:89-98 | every collected bookmark points inside the part, rebased to start at 0, and has no children |
| SplitByBookmarks.WindowMembers | split_pdf_by_bookmarks.py:86-98 | a bookmark is collected exactly when some page bookmark of the outline lies in the window and, rebased, is that bookmark |
| SplitByBookmarks.OutlinedOne | split_pdf_by_bookmarks.py:137-143 | a bookmark adds one outline item per bookmark of its subtree |
| SplitByBookmarks.Outlined | split_pdf_by_bookmarks.py:136-143 | a forest adds one outline item per bookmark it holds |
| SplitByBookmarks.AddBookmarks | split_pdf_by_bookmarks.py:124-143 | `add_bookmarks_to_pdf` adds each bookmark under the parent, then its children under it |
| SplitByBookmarks.AddOne | split_pdf_by_bookmarks.py:137-143 | one turn of that loop adds the bookmark, then its children when it has any |
| SplitByBookmarks.OutlinedFlat | split_pdf_by_bookmarks.py:136-143 | bookmarks without children are added one after another under the same parent, with their titles and pages |
| SplitByBookmarks.PartName | split_pdf_by_bookmarks.py:201-206 | a part's file name ends in `.pdf` |
| SplitByBookmarks.PartNameNumber | split_pdf_by_bookmarks.py:206 | without a prefix the part number reads back from the file name |
| SplitByBookmarks.PartNamePrefixed | split_pdf_by_bookmarks.py:203-204 | with a prefix the name is the prefix, `_`, and the name without prefix |
| SplitByBookmarks.PartNamesDistinct | split_pdf_by_bookmarks.py:203-206 | parts with different numbers get different file names, whatever the prefix and titles |
| SplitByBookmarks.PartOutlineShape | split_pdf_by_bookmarks.py:191-198 | every part gets a bookmark: the collected ones flat, in order, inside the part; otherwise the part's title at page 0 |
| SplitByBookmarks.WritePart | split_pdf_by_bookmarks.py:183-211 | one part's file: its existing pages, its outline and its name |
| SplitByBookmarks.WriteParts | split_pdf_by_bookmarks.py:181-218 | part `k + 1` is written from range `k`, one file per range |
| SplitByBookmarks.SplitPdf | split_pdf_by_bookmarks.py:146-220 | one file per part, numbered from 1 in page order; nothing without valid bookmarks |
| SplitByBookmarks.UnquoteQuoted | split_pdf_by_bookmarks.py:232-237 | a path typed inside matching quotes comes back without them |
| SplitByBookmarks.UnquoteUnquoted | split_pdf_by_bookmarks.py:232-237 | a path not wrapped in matching quotes is only stripped of whitespace |
| Subtitles.Stripped | srt_to_md.py:42 | each line of a chunk is stripped, and the chunk keeps its length |
| Subtitles.CollectedChunk | srt_to_md.py:45-46 | a chunk adds nothing when empty, otherwise its stripped lines joined by single spaces |
| Subtitles.ChunkTextNonEmpty | srt_to_md.py:45-46 | a chunk of non-blank lines adds a non-empty text |
| Subtitles.TextEnd | srt_to_md.py:41-43 | the text of a cue ends at the first blank line or at the end of the file |
| Subtitles.TextEndBounds | srt_to_md.py:41-43 | every line before that end is non-blank, and the line at it is blank |
| Subtitles.CollectChunk | srt_to_md.py:40-43 | the inner loop stops at that end and collects the stripped lines before it |
| Subtitles.SrtStep | srt_to_md.py:32-48 | one turn of the outer loop moves forward and adds exactly what the scan adds from that line |
| Subtitles.ProcessSrt | srt_to_md.py:12-50 | `process_srt_file` is the texts found by the scan joined by single spaces |
| Subtitles.SrtBlocksNonEmpty | srt_to_md.py:45-46 | the scan never yields an empty text |
| Subtitles.SrtCueAt | srt_to_md.py:34-46 | a number line, a timing line, text lines and a blank line yield that cue's text |
| Subtitles.SrtRoundTrip | srt_to_md.py:32-48 | the scan of rendered well-formed cues recovers the text of each cue, in order |
| Subtitles.SrtFileRoundTrip | srt_to_md.py:12-50 | a well-formed SRT file written out as text converts to the texts of its cues joined by single spaces |
| Subtitles.FirstHeader | vvt_to_md.py:31-32 | the first line that is `WEBVTT` or starts with `WEBVTT `, and no header line before it |
| Subtitles.MetaEnd | vvt_to_md.py:35-36 | the header skip passes exactly the lines it skips and stops at the first one it does not |
| Subtitles.SkipMetadata | vvt_to_md.py:35-36 | the skip loop stops at that line |
| Subtitles.FindStart | vvt_to_md.py:28-37 | the scan starts after the header and its skipped lines, or at 0 without a header |
| Subtitles.CueEnd | vvt_to_md.py:49-51 | a cue's text ends at the first blank or timing line |
| Subtitles.CueEndBounds | vvt_to_md.py:49-51 | every line before that end is non-blank and not a timing line; the line at it is one or the other |
| Subtitles.CollectCue | vvt_to_md.py:48-51 | the inner loop stops at that end and collects the stripped lines before it |
| Subtitles.VttStep | vvt_to_md.py:43-57 | one turn of the outer loop moves forward and adds exactly what the scan adds from that line |
| Subtitles.ProcessVtt | vvt_to_md.py:12-59 | `process_vtt_file` is the texts found from the start line joined by single spaces |
| Subtitles.VttCueAt | vvt_to_md.py:45-54 | a timing line, text lines and a blank line yield that cue's text |
| Subtitles.HeaderFieldsSkipped | vvt_to_md.py:32-36 | the header is found at line 0 and its metadata lines are all skipped |
| Subtitles.VttStartRendered | vvt_to_md.py:31-37 | with the corrected skip, a rendered file is scanned from the first cue's timing line |
| Subtitles.VttRoundTrip | vvt_to_md.py:43-57 | with the corrected skip, the scan of a rendered file recovers the text of each cue, in order |
| Subtitles.VttFileRoundTrip | vvt_to_md.py:12-59 | a well-formed WebVTT file written out as text converts, with the corrected skip, to the texts of its cues |
| Subtitles.AsWrittenStart | vvt_to_md.py:35 | as written, the skip also passes the first cue's timing line when it holds a `:` |
| Subtitles.AsWrittenDropsFirstCue | vvt_to_md.py:35 | as written, a file whose first cue has no identifier converts to the texts of all cues but the first |
| Subtitles.OneCueFile | vvt_to_md.py:35 | a one-cue file converts to nothing as written and to its text with the corrected skip |
| Subtitles.AsWrittenExample | vvt_to_md.py:35 | `WEBVTT`, blank, `00:00:01.000 --> 00:00:04.000`, `Hello`: nothing as written, `Hello` corrected |
| SubtitleChapters.ConvertFile | srt_to_md.py:101 | a file's content is split into lines and scanned by its format's converter, the WebVTT skip as written or corrected |
| SubtitleChapters.VttFileText | vvt_to_md.py:25-53 | a well-formed WebVTT file whose first cue has no identifier converts, as written, to the texts of all cues but the first; corrected, to all of them |
| SubtitleChapters.AssembleChapter | srt_to_md.py:86-104 | the per-chapter loop body builds exactly the chapter document, or nothing for a folder without subtitle files |
| SubtitleChapters.ChapterFilesStep | srt_to_md.py:81-109 | each chapter folder adds exactly what it is written as |
| SubtitleChapters.ConvertChapters | srt_to_md.py:75-111 | `main` writes exactly the files of the folders in natural order |
| SubtitleChapters.SortFilesCorrect | srt_to_md.py:89-90 | the subtitle files are taken in natural order of their paths, all of them, ties in listing order |
| SubtitleChapters.SortDirsCorrect | srt_to_md.py:78-79 | the chapter folders are taken in natural order of their paths, all of them, ties in listing order |
| SubtitleChapters.SectionsFlatten | srt_to_md.py:96-104 | the sections are each file's `## stem` section, one after another |
| SubtitleChapters.ChapterMarkdownShape | srt_to_md.py:86-104 | a chapter yields a document exactly when it holds subtitle files; the document is `# name` then a section per file in natural order |
| SubtitleChapters.ChapterFilesMembers | srt_to_md.py:81-109 | every folder holding subtitle files is written as its own document, and nothing else is written |
| SubtitleChapters.ConvertTreeMembers | vvt_to_md.py:84-118 | `main` writes one document per listed folder that holds subtitle files, and no other |
| MergeMd.Kept | merge_md.py:81-82 | the filter keeps exactly the files that are not the output file, and no more files than it is given |
| MergeMd.KeptSorted | merge_md.py:78-82 | the filter keeps the natural order of the files it keeps |
| MergeMd.MergeOrder | merge_md.py:78-86 | the files are merged in natural order without the output file; nothing is written exactly when no other file is found |
| MergeMd.AddFile | merge_md.py:101-123 | one turn of the loop: nothing for a blank file, else header, stripped content and separator |
| MergeMd.PiecesStep | merge_md.py:94-123 | each turn of the loop appends exactly that file's pieces |
| MergeMd.MergeMarkdownFiles | merge_md.py:65-128 | the document is the pieces of the kept files joined by line breaks; nothing without files |
| MergeMd.FilePiecesShape | merge_md.py:103-123 | a blank file adds nothing; any other adds its header when headers are on, its stripped content and a rule exactly when rules are on and it is not last |
| MergeMd.PiecesList | merge_md.py:94-123 | one list of pieces per file, computed from its position in the whole list |
| MergeMd.PiecesFlatten | merge_md.py:94-123 | the merged pieces are each file's pieces, one file after another |
| MergeMd.TrailingRule | merge_md.py:120 | the rule depends on the position in the whole list, so a blank last file leaves a rule at the end of the document |
| MergeMd.OutputName | merge_md.py:159-163 | the output name always ends in `.md` |
| MergeMd.OutputNameIdempotent | merge_md.py:159-163 | normalising a normalised name changes nothing |
| MergeMd.OutputNameCases | merge_md.py:159-163 | no answer gives `merged.md`; a name ending in `.md` is used as it is; any other name is kept as the start |
| MergeMd.AnswersConsistent | merge_md.py:166-175 | a yes never switches an option off, and a no never switches recursion on |
| MergeMd.AnswerDefaults | merge_md.py:166-175 | with no answer, recursion stays off and header and rule stay on |
| MergeMd.AnswerCaseInsensitive | merge_md.py:166-175 | answers are read whatever their letter case |

## Left out

- coordinate_converter.py is not part of this model: it computes in floating point.
- PyPDF2 is not modelled. Reading the outline, looking up pages and writing PDF files are given as values (outline items, page lookups that may fail, the page count) or returned as values (file name, pages, outline items).
- Directory creation, `os.path` handling, `glob`/`rglob`/`iterdir`, `resolve()` and `relative_to()` are not modelled. Their results arrive as fields of the file records.
- `print` output, the interactive prompts and the checks for existence and file type in the `main` functions are left out.
- split_pdf_by_chapters.py's `main` (path stripping at line 283 and the retry loop for the split level at 295-301) is left out. The split level reaches `SplitPdf` as a parameter.
- The path stripping in the `main` of srt_to_md.py, vvt_to_md.py and merge_md.py is left out. Only the quote handling of split_pdf_by_bookmarks.py is modelled.
- Exceptions caught around a whole file or part are not modelled: a part whose writing fails would be skipped. A `read_md_file` failure would give `""`; the model reads a file as its given content.
- Strings are ASCII-only. Whitespace, `lower()` and `isdigit()` follow ASCII, so Unicode digits, Unicode case mapping and Unicode whitespace are not modelled. The Chinese keywords are matched as plain characters, which needs no case mapping.
- Dictionaries and lists that the source updates in place (`current_chapter`, the accumulator `parent_list`, `merged_content`) are modelled as values that the loops reassign. Aliasing between `chapters` and `current_chapter` is not modelled; the model gives the same final values.
- The bookmarks `get_nested_bookmarks` collects never have children, as in the source; the recursion of `add_bookmarks_to_pdf` over children is still modelled in full.

## Findings

| source | as written | input that shows it | evidently intended | confidence | as-written member | corrected member |
|---|---|---|---|---|---|---|
| split_pdf_by_chapters.py:124-127 | Only the last section of the last chapter is clamped to its chapter's end. That section already ends on the last page, so the clamp changes nothing. The last section of every other chapter keeps `end_page = len(pages) - 1`. | 10 pages; `Chapter 1` at page 0, `Section 1.1` at page 0, `Chapter 2` at page 5. Chapter 1 ends on page 4, but `Section 1.1` runs to page 9, so splitting by section gives it all of chapter 2's pages too. | The last section of each chapter ends where its chapter ends. | not executed | SplitByChapters.AsWrittenSectionOverruns | SplitByChapters.ClampedSectionsTile |
| vvt_to_md.py:35 | After `WEBVTT`, the skip passes every blank line and every line holding a `:`. Every WebVTT timestamp holds a `:`, so when the first cue has no identifier line, its timing line is skipped too. The scan then begins at its text line, which is not a timing line, and the first cue's text is lost. | `WEBVTT`, ``, `00:00:01.000 --> 00:00:04.000`, `Hello`, `` converts to `""` instead of `Hello`. | The skip stops at the first timing line, so that every cue is converted. | not executed | Subtitles.AsWrittenDropsFirstCue | Subtitles.VttRoundTrip |
| split_pdf_by_chapters.py:49-54 | A title starting with a digit is classified by how many parts `title.split('.')` gives: two parts make a chapter, three or more a section. `1.1 xxx` gives two parts, so it is a chapter, although the docstring (line 21) and the comment at line 53 name `1.1 xxx` as a section. | A bookmark titled `1.1 Overview` gets level 1 and starts a chapter of its own. | One number closed by a `.` (`1. xxx`) is a chapter; two or more numbers joined by `.` (`1.1 xxx`, `1.1.1 xxx`) are a section. | not executed | SplitByChapters.AsWrittenDottedSection | SplitByChapters.IntendedSectionNumber |
