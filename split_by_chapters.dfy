/**
 * The chapter splitter: classify outline entries as chapters (level 1) or
 * sections (level 2), build the chapter/section tree with its page ranges,
 * and plan the output files of the two split levels.
 */
module SplitByChapters {
  import opened Wrappers
  import opened Text
  import opened Outline

  // ---------------------------------------------------------------------
  // Bookmark levels
  // ---------------------------------------------------------------------

  const ChapterIndicators: seq<string> := ["章", "chapter", "part"]
  const SectionIndicators: seq<string> := ["节", "section", "小节"]

  /** `any(w in s for w in words)` */
  predicate MentionsAny(s: string, words: seq<string>) {
    exists w :: w in words && Contains(s, w)
  }

  /** The title starts with a digit and is not blank. */
  predicate NumberedTitle(title: string) {
    !IsBlank(title) && IsDigit(title[0])
  }

  /** The level `get_bookmark_level` gives a title: 1 chapter, 2 section, 0 neither. */
  function TitleLevel(title: string): (level: nat)
    ensures level <= 2
  {
    var lower := Lower(title);
    if MentionsAny(lower, ChapterIndicators) then 1
    else if MentionsAny(lower, SectionIndicators) then 2
    else if NumberedTitle(title) then
      var parts := Split(title, '.');
      if |parts| == 2 then 1 else if |parts| >= 3 then 2 else 0
    else 0
  }

  /**
   * A chapter keyword wins, then a section keyword (both matched on the
   * lower-cased title); failing both, a title starting with a digit is a
   * chapter when it holds exactly one '.', a section when it holds two or
   * more, and neither otherwise.
   */
  lemma TitleLevelClassifies(title: string)
    ensures MentionsAny(Lower(title), ChapterIndicators) ==> TitleLevel(title) == 1
    ensures !MentionsAny(Lower(title), ChapterIndicators) && MentionsAny(Lower(title), SectionIndicators) ==> TitleLevel(title) == 2
    ensures !MentionsAny(Lower(title), ChapterIndicators) && !MentionsAny(Lower(title), SectionIndicators) ==>
      (TitleLevel(title) == 1 <==> NumberedTitle(title) && CountChar(title, '.') == 1) &&
      (TitleLevel(title) == 2 <==> NumberedTitle(title) && CountChar(title, '.') >= 2)
  {
  }

  /** An empty title is neither a chapter nor a section. */
  lemma EmptyTitleLevel()
    ensures TitleLevel("") == 0 && IntendedTitleLevel("") == 0
  {
    assert !MentionsAny(Lower(""), ChapterIndicators);
    assert !MentionsAny(Lower(""), SectionIndicators);
  }

  /**
   * `get_bookmark_level`: only page bookmarks are classified, by their title
   * or, without one, by the empty title; `corrected` selects the classifier
   * of numbered titles the comments describe over the one the code runs.
   */
  function BookmarkLevel(item: OutlineItem, corrected: bool): (level: nat)
    ensures level <= 2
    ensures !IsPageBookmark(item) ==> level == 0
  {
    if !IsPageBookmark(item) then 0
    else
      var title := if item.title.Some? then item.title.value else "";
      if corrected then IntendedTitleLevel(title) else TitleLevel(title)
  }

  /** Lower-casing leaves a string without upper-case ASCII letters as it is. */
  lemma LowerKeeps(s: string)
    requires forall i :: 0 <= i < |s| ==> !('A' <= s[i] <= 'Z')
    ensures Lower(s) == s
  {
  }

  lemma LevelOfChineseChapter()
    ensures TitleLevel("第一章 总论") == 1
  {
    var s := "第一章 总论";
    LowerKeeps(s);
    var w := ChapterIndicators[0];
    assert w in ChapterIndicators;
    assert OccursAt(s, w, 2);
    assert Contains(Lower(s), w);
  }

  /** Keywords match whatever the case of the title. */
  lemma LevelOfUpperCasePart()
    ensures TitleLevel("PART I") == 1
  {
    var s := "PART I";
    assert Lower(s) == "part i";
    var w := ChapterIndicators[2];
    assert w in ChapterIndicators;
    assert OccursAt("part i", w, 0);
    assert Contains(Lower(s), w);
  }

  /** A chapter keyword wins over a section keyword in the same title. */
  lemma LevelChapterKeywordFirst()
    ensures TitleLevel("Section 2, chapter 1") == 1
  {
    var s := "Section 2, chapter 1";
    assert Lower(s) == "section 2, chapter 1";
    var w := ChapterIndicators[1];
    assert w in ChapterIndicators;
    assert OccursAt("section 2, chapter 1", w, 11);
    assert Contains(Lower(s), w);
  }

  // ---------------------------------------------------------------------
  // The intended classification of numbered titles
  // ---------------------------------------------------------------------

  /** A character that can be part of a numbering such as "1.2.3". */
  predicate NumberChar(c: char) {
    IsDigit(c) || c == '.'
  }

  /** The longest prefix of `s` made of digits and dots. */
  function NumberRun(s: string): (run: string)
    ensures run <= s
    ensures forall k :: 0 <= k < |run| ==> NumberChar(run[k])
    ensures |run| < |s| ==> !NumberChar(s[|run|])
  {
    if s != [] && NumberChar(s[0]) then [s[0]] + NumberRun(s[1..]) else []
  }

  /** The numbering a title starts with: its leading run without a closing '.'. */
  function Numbering(title: string): string {
    var run := NumberRun(title);
    if run != [] && run[|run| - 1] == '.' then run[..|run| - 1] else run
  }

  /**
   * The level the comments of `get_bookmark_level` give a title that starts
   * with a digit: a single number closed by a '.' ("1. xxx") is a chapter,
   * two or more numbers joined by '.' ("1.1 xxx", "1.1.1 xxx") a section,
   * and a number with no '.' after it neither.
   */
  function IntendedNumberLevel(title: string): (level: nat)
    ensures level <= 2
    ensures level > 0 ==> NumberedTitle(title)
  {
    if !NumberedTitle(title) || '.' !in NumberRun(title) then 0
    else if '.' !in Numbering(title) then 1
    else 2
  }

  /** `get_bookmark_level` as its comments describe it: the keyword tests, then the numbering. */
  function IntendedTitleLevel(title: string): (level: nat)
    ensures level <= 2
    ensures level != TitleLevel(title) ==>
      NumberedTitle(title) && !MentionsAny(Lower(title), ChapterIndicators) && !MentionsAny(Lower(title), SectionIndicators)
  {
    var lower := Lower(title);
    if MentionsAny(lower, ChapterIndicators) then 1
    else if MentionsAny(lower, SectionIndicators) then 2
    else IntendedNumberLevel(title)
  }

  /** Digits and dots at the head of `p + q` all belong to the leading run. */
  lemma NumberRunCovers(p: string, q: string)
    requires forall k :: 0 <= k < |p| ==> NumberChar(p[k])
    ensures p <= NumberRun(p + q)
  {
    assert forall k :: 0 <= k < |p| ==> (p + q)[k] == p[k];
  }

  /** The leading run of `p + q` is exactly `p` when `q` does not go on with a digit or a dot. */
  lemma NumberRunIs(p: string, q: string)
    requires forall k :: 0 <= k < |p| ==> NumberChar(p[k])
    requires q == [] || !NumberChar(q[0])
    ensures NumberRun(p + q) == p
  {
    NumberRunCovers(p, q);
    assert |p| < |p + q| ==> (p + q)[|p|] == q[0];
  }

  /** A title that starts with a digit is not blank. */
  lemma DigitFirstNumbered(title: string)
    requires title != [] && IsDigit(title[0])
    ensures NumberedTitle(title)
  {
    assert !IsSpace(title[0]);
  }

  /** "1. xxx": one number closed by a '.' is a chapter. */
  lemma IntendedChapterNumber(d: string, rest: string)
    requires IsDigits(d)
    requires rest == [] || !NumberChar(rest[0])
    ensures IntendedNumberLevel(d + "." + rest) == 1
  {
    var title := d + "." + rest;
    DigitFirstNumbered(title);
    assert forall k :: 0 <= k < |d + "."| ==> NumberChar((d + ".")[k]);
    assert title == (d + ".") + rest;
    NumberRunIs(d + ".", rest);
    assert (d + ".")[|d|] == '.';
    assert Numbering(title) == d;
    assert '.' !in d by {
      assert forall k :: 0 <= k < |d| ==> IsDigit(d[k]);
    }
  }

  /** "1.1 xxx" or "1.1.1 xxx": two numbers joined by a '.' make a section, whatever follows. */
  lemma IntendedSectionNumber(d: string, m: string, rest: string)
    requires IsDigits(d) && IsDigits(m)
    ensures IntendedNumberLevel(d + "." + m + rest) == 2
  {
    var title := d + "." + m + rest;
    var p := d + "." + m;
    DigitFirstNumbered(title);
    assert forall k :: 0 <= k < |p| ==> NumberChar(p[k]);
    assert title == p + rest;
    NumberRunCovers(p, rest);
    var run := NumberRun(title);
    assert run[|d|] == p[|d|] == '.';
    assert Numbering(title)[|d|] == '.';
  }

  /** "2020 review": a number with no '.' after it is neither. */
  lemma IntendedBareNumber(d: string, rest: string)
    requires IsDigits(d)
    requires rest == [] || !NumberChar(rest[0])
    ensures IntendedNumberLevel(d + rest) == 0
  {
    NumberRunIs(d, rest);
    assert '.' !in d by {
      assert forall k :: 0 <= k < |d| ==> IsDigit(d[k]);
    }
  }

  /** A word holding a character that `s` lacks does not occur in `s`. */
  lemma MissingCharNotContained(s: string, w: string, c: char)
    requires c in w && c !in s
    ensures !Contains(s, w)
  {
    forall i | 0 <= i <= |s| - |w|
      ensures !OccursAt(s, w, i)
    {
      assert c !in s[i..i + |w|];
    }
  }

  /**
   * As written, the number of '.' decides: a title "d.m rest" without keywords
   * and without a further '.' splits into two parts and is taken for a
   * chapter, where its numbering makes it a section.
   */
  lemma AsWrittenTwoNumbers(d: string, m: string, rest: string)
    requires IsDigits(d) && IsDigits(m) && '.' !in rest
    requires !MentionsAny(Lower(d + "." + m + rest), ChapterIndicators)
    requires !MentionsAny(Lower(d + "." + m + rest), SectionIndicators)
    ensures TitleLevel(d + "." + m + rest) == 1
    ensures IntendedTitleLevel(d + "." + m + rest) == 2
  {
    var title := d + "." + m + rest;
    DigitFirstNumbered(title);
    assert '.' !in d && '.' !in m by {
      assert forall k :: 0 <= k < |d| ==> IsDigit(d[k]);
      assert forall k :: 0 <= k < |m| ==> IsDigit(m[k]);
    }
    CountCharAbsent(d, '.');
    CountCharAbsent(m, '.');
    CountCharAbsent(rest, '.');
    CountCharAppend(d, ".", '.');
    CountCharAppend(d + ".", m, '.');
    CountCharAppend(d + "." + m, rest, '.');
    assert CountChar(".", '.') == 1;
    TitleLevelClassifies(title);
    IntendedSectionNumber(d, m, rest);
  }

  /**
   * The docstring's own example of a section, "1.1 xxx", is classified as a
   * chapter; the intended classifier makes it a section.
   */
  lemma AsWrittenDottedSection()
    ensures TitleLevel("1.1 Overview") == 1
    ensures IntendedTitleLevel("1.1 Overview") == 2
  {
    var title := "1.1 Overview";
    var lower := Lower(title);
    assert lower == "1.1 overview";
    assert title == "1" + "." + "1" + " Overview";
    forall w | w in ChapterIndicators
      ensures !Contains(lower, w)
    {
      if w == "章" {
        MissingCharNotContained(lower, w, '章');
      } else if w == "chapter" {
        MissingCharNotContained(lower, w, 'c');
      } else {
        MissingCharNotContained(lower, w, 'p');
      }
    }
    forall w | w in SectionIndicators
      ensures !Contains(lower, w)
    {
      if w == "节" {
        MissingCharNotContained(lower, w, '节');
      } else if w == "section" {
        MissingCharNotContained(lower, w, 's');
      } else {
        MissingCharNotContained(lower, w, '小');
      }
    }
    AsWrittenTwoNumbers("1", "1", " Overview");
  }

  // ---------------------------------------------------------------------
  // Recognised bookmarks (the first loop of get_bookmarks_hierarchy)
  // ---------------------------------------------------------------------

  datatype BookmarkInfo = BookmarkInfo(title: string, page: nat, level: nat, index: nat)

  /**
   * The record the first loop keeps for outline entry `i`, if any: a
   * classified page bookmark whose page lookup succeeds; a missing title
   * falls back to "Bookmark {i+1}".
   */
  function InfoAt(outline: seq<OutlineItem>, i: nat, corrected: bool): (r: Option<BookmarkInfo>)
    requires i < |outline|
    ensures r.Some? ==> r.value.index == i && 1 <= r.value.level <= 2 && r.value.level == BookmarkLevel(outline[i], corrected)
    ensures r.Some? <==> BookmarkLevel(outline[i], corrected) > 0 && outline[i].page.Some?
  {
    var item := outline[i];
    var level := BookmarkLevel(item, corrected);
    var fallback := "Bookmark " + NatToDecimal(i + 1);
    if level > 0 && item.page.Some? then
      var title := if item.title.Some? then item.title.value else fallback;
      Some(BookmarkInfo(title, item.page.value, level, i))
    else None
  }

  /** The record of each outline entry, or `None` for entries the first loop skips. */
  function Records(outline: seq<OutlineItem>, corrected: bool): (recs: seq<Option<BookmarkInfo>>)
    ensures |recs| == |outline|
    ensures forall i :: 0 <= i < |recs| ==> recs[i] == InfoAt(outline, i, corrected)
  {
    seq(|outline|, i requires 0 <= i < |outline| => InfoAt(outline, i, corrected))
  }

  /** Every present record carries its own position as `index`. */
  predicate Indexed(recs: seq<Option<BookmarkInfo>>) {
    forall i :: 0 <= i < |recs| && recs[i].Some? ==> recs[i].value.index == i
  }

  lemma RecordsIndexed(outline: seq<OutlineItem>, corrected: bool)
    ensures Indexed(Records(outline, corrected))
  {
  }

  /** The present records, in order. */
  function Kept(recs: seq<Option<BookmarkInfo>>): (infos: seq<BookmarkInfo>)
    ensures |infos| <= |recs|
  {
    if recs == [] then []
    else
      var prev := Kept(recs[..|recs| - 1]);
      match recs[|recs| - 1]
      case Some(info) => prev + [info]
      case None => prev
  }

  /** The records the first loop of `get_bookmarks_hierarchy` collects. */
  function Recognised(outline: seq<OutlineItem>, corrected: bool): seq<BookmarkInfo> {
    Kept(Records(outline, corrected))
  }

  lemma KeptSnoc(recs: seq<Option<BookmarkInfo>>, r: Option<BookmarkInfo>)
    ensures Kept(recs + [r]) == Kept(recs) + (if r.Some? then [r.value] else [])
  {
    assert (recs + [r])[..|recs|] == recs;
  }

  /** Every kept record is the record at its own position. */
  lemma {:induction false} KeptSound(recs: seq<Option<BookmarkInfo>>)
    requires Indexed(recs)
    ensures forall k :: 0 <= k < |Kept(recs)| ==>
      Kept(recs)[k].index < |recs| && recs[Kept(recs)[k].index] == Some(Kept(recs)[k])
  {
    if recs != [] {
      var p := recs[..|recs| - 1];
      var r := recs[|recs| - 1];
      assert recs == p + [r];
      assert Indexed(p);
      KeptSound(p);
      KeptSnoc(p, r);
      var prev := Kept(p);
      var infos := Kept(recs);
      forall k | 0 <= k < |infos|
        ensures infos[k].index < |recs| && recs[infos[k].index] == Some(infos[k])
      {
        if k < |prev| {
          assert infos[k] == prev[k];
          assert recs[prev[k].index] == p[prev[k].index];
        }
      }
    }
  }

  /** Kept records keep the order of the outline. */
  lemma {:induction false} KeptOrdered(recs: seq<Option<BookmarkInfo>>)
    requires Indexed(recs)
    ensures forall k, l :: 0 <= k < l < |Kept(recs)| ==> Kept(recs)[k].index < Kept(recs)[l].index
  {
    if recs != [] {
      var p := recs[..|recs| - 1];
      var r := recs[|recs| - 1];
      assert recs == p + [r];
      assert Indexed(p);
      KeptOrdered(p);
      KeptSound(p);
      KeptSnoc(p, r);
      var prev := Kept(p);
      var infos := Kept(recs);
      forall k, l | 0 <= k < l < |infos|
        ensures infos[k].index < infos[l].index
      {
        assert infos[k] == prev[k];
        if l < |prev| {
          assert infos[l] == prev[l];
        }
      }
    }
  }

  /** No present record is lost. */
  lemma {:induction false} KeptComplete(recs: seq<Option<BookmarkInfo>>, i: nat)
    requires i < |recs| && recs[i].Some?
    ensures recs[i].value in Kept(recs)
  {
    var p := recs[..|recs| - 1];
    var r := recs[|recs| - 1];
    assert recs == p + [r];
    KeptSnoc(p, r);
    if i < |recs| - 1 {
      assert p[i] == recs[i];
      KeptComplete(p, i);
    }
  }

  /**
   * The first loop keeps exactly the classified page bookmarks whose page
   * lookup succeeds, each with its own outline position, in outline order.
   */
  lemma RecognisedIsOutlineOrder(outline: seq<OutlineItem>, corrected: bool)
    ensures var infos := Recognised(outline, corrected);
      (forall k :: 0 <= k < |infos| ==> infos[k].index < |outline| && InfoAt(outline, infos[k].index, corrected) == Some(infos[k])) &&
      (forall k, l :: 0 <= k < l < |infos| ==> infos[k].index < infos[l].index) &&
      (forall i :: 0 <= i < |outline| && InfoAt(outline, i, corrected).Some? ==> InfoAt(outline, i, corrected).value in infos)
  {
    var recs := Records(outline, corrected);
    RecordsIndexed(outline, corrected);
    KeptSound(recs);
    KeptOrdered(recs);
    forall i | 0 <= i < |outline| && InfoAt(outline, i, corrected).Some?
      ensures InfoAt(outline, i, corrected).value in Kept(recs)
    {
      KeptComplete(recs, i);
    }
  }

  /** A bookmark without a title never enters the hierarchy, so the "Bookmark {i+1}" fallback title is never used. */
  lemma UntitledNeverRecognised(outline: seq<OutlineItem>, i: nat, corrected: bool)
    requires i < |outline| && outline[i].Destination? && outline[i].title.None?
    ensures InfoAt(outline, i, corrected) == None
  {
    EmptyTitleLevel();
  }

  // ---------------------------------------------------------------------
  // The hierarchy, as a closed-form reference
  // ---------------------------------------------------------------------

  datatype Section = Section(title: string, startPage: nat, endPage: int)
  datatype Chapter = Chapter(title: string, startPage: nat, endPage: int, sections: seq<Section>)

  function CountLevel(infos: seq<BookmarkInfo>, level: nat): nat {
    if infos == [] then 0
    else CountLevel(infos[..|infos| - 1], level) + (if infos[|infos| - 1].level == level then 1 else 0)
  }

  /** Positions into `infos`, strictly ascending. */
  predicate ValidHeads(infos: seq<BookmarkInfo>, h: seq<nat>) {
    (forall c :: 0 <= c < |h| ==> h[c] < |infos|) &&
    (forall c, d :: 0 <= c < d < |h| ==> h[c] < h[d])
  }

  /** Positions of the chapter (level-1) records, ascending. */
  function Heads(infos: seq<BookmarkInfo>): (h: seq<nat>)
    ensures ValidHeads(infos, h)
    ensures forall c :: 0 <= c < |h| ==> infos[h[c]].level == 1
  {
    if infos == [] then []
    else
      var p := infos[..|infos| - 1];
      var h := Heads(p);
      var r := h + (if infos[|infos| - 1].level == 1 then [|infos| - 1] else []);
      assert forall c :: 0 <= c < |h| ==> infos[h[c]] == p[h[c]];
      r
  }

  /** The section (level-2) records of a stretch of records, in order. */
  function Level2(s: seq<BookmarkInfo>): seq<BookmarkInfo> {
    if s == [] then []
    else Level2(s[..|s| - 1]) + (if s[|s| - 1].level == 2 then [s[|s| - 1]] else [])
  }

  /** Each section runs to the page before the next one; the last runs to the end of the document. */
  function SectionsOf(entries: seq<BookmarkInfo>, pageCount: nat): (secs: seq<Section>)
    ensures |secs| == |entries|
  {
    seq(|entries|, j requires 0 <= j < |entries| =>
      Section(entries[j].title, entries[j].page,
        if j + 1 < |entries| then entries[j + 1].page - 1 else pageCount - 1))
  }

  /** Where the records of chapter `c` end: at the next chapter record, or at the end. */
  function NextHead(h: seq<nat>, c: nat, size: nat): nat
    requires c < |h|
  {
    if c + 1 < |h| then h[c + 1] else size
  }

  /** Chapter `c` runs to the page before the next chapter, the last one to the end of the document. */
  function ChapterEnd(infos: seq<BookmarkInfo>, h: seq<nat>, c: nat, pageCount: nat): int
    requires ValidHeads(infos, h) && c < |h|
  {
    if c + 1 < |h| then infos[h[c + 1]].page - 1 else pageCount - 1
  }

  /** The sections of chapter `c`: the section records between it and the next chapter. */
  function ChapterSections(infos: seq<BookmarkInfo>, h: seq<nat>, c: nat, pageCount: nat): seq<Section>
    requires ValidHeads(infos, h) && c < |h|
  {
    SectionsOf(Level2(infos[h[c] + 1..NextHead(h, c, |infos|)]), pageCount)
  }

  function ChapterAt(infos: seq<BookmarkInfo>, h: seq<nat>, c: nat, pageCount: nat): Chapter
    requires ValidHeads(infos, h) && c < |h|
  {
    Chapter(infos[h[c]].title, infos[h[c]].page, ChapterEnd(infos, h, c, pageCount), ChapterSections(infos, h, c, pageCount))
  }

  /**
   * What `get_bookmarks_hierarchy` builds from the recognised records: one
   * chapter per level-1 record, running to the page before the next
   * chapter (the last to the end of the document), holding the level-2
   * records that follow it up to the next chapter. Section records before
   * the first chapter belong to no chapter.
   */
  function Hierarchy(infos: seq<BookmarkInfo>, pageCount: nat): (chapters: seq<Chapter>)
    ensures |chapters| == |Heads(infos)|
  {
    var h := Heads(infos);
    seq(|h|, c requires 0 <= c < |h| => ChapterAt(infos, h, c, pageCount))
  }

  // ---------------------------------------------------------------------
  // Step lemmas: one more record
  // ---------------------------------------------------------------------

  lemma HeadsSnoc(p: seq<BookmarkInfo>, x: BookmarkInfo)
    ensures Heads(p + [x]) == Heads(p) + (if x.level == 1 then [|p|] else [])
  {
    assert (p + [x])[..|p|] == p;
  }

  lemma Level2Snoc(s: seq<BookmarkInfo>, x: BookmarkInfo)
    ensures Level2(s + [x]) == Level2(s) + (if x.level == 2 then [x] else [])
  {
    assert (s + [x])[..|s|] == s;
  }

  /** Replace the end page of the last section. */
  function SetLastSectionEnd(secs: seq<Section>, end: int): (r: seq<Section>)
    requires secs != []
    ensures |r| == |secs| && r[..|r| - 1] == secs[..|secs| - 1] && r[|r| - 1] == secs[|secs| - 1].(endPage := end)
  {
    secs[..|secs| - 1] + [secs[|secs| - 1].(endPage := end)]
  }

  /** Replace the end page of the last chapter. */
  function SetLastChapterEnd(chapters: seq<Chapter>, end: int): (r: seq<Chapter>)
    requires chapters != []
    ensures |r| == |chapters| && r[..|r| - 1] == chapters[..|chapters| - 1] && r[|r| - 1] == chapters[|chapters| - 1].(endPage := end)
  {
    chapters[..|chapters| - 1] + [chapters[|chapters| - 1].(endPage := end)]
  }

  /** A new section closes the previous one at the page before its own. */
  lemma SectionsOfSnoc(e: seq<BookmarkInfo>, x: BookmarkInfo, pageCount: nat)
    ensures SectionsOf(e + [x], pageCount) ==
      (if e == [] then [] else SetLastSectionEnd(SectionsOf(e, pageCount), x.page - 1))
      + [Section(x.title, x.page, pageCount - 1)]
  {
    var a := SectionsOf(e + [x], pageCount);
    var b := (if e == [] then [] else SetLastSectionEnd(SectionsOf(e, pageCount), x.page - 1))
      + [Section(x.title, x.page, pageCount - 1)];
    assert |a| == |b|;
    forall j | 0 <= j < |a|
      ensures a[j] == b[j]
    {
      if j < |e| - 1 {
        assert b[j] == SectionsOf(e, pageCount)[j];
      }
    }
  }

  /** A chapter that is followed by another chapter record in both lists is the same in both. */
  lemma ChapterStable(p: seq<BookmarkInfo>, x: BookmarkInfo, h: seq<nat>, h2: seq<nat>, c: nat, pageCount: nat)
    requires ValidHeads(p, h) && ValidHeads(p + [x], h2)
    requires |h| <= |h2| && h2[..|h|] == h && c + 1 < |h|
    ensures ChapterAt(p + [x], h2, c, pageCount) == ChapterAt(p, h, c, pageCount)
  {
    var q := p + [x];
    assert h2[c] == h[c] && h2[c + 1] == h[c + 1];
    assert q[h[c]] == p[h[c]] && q[h[c + 1]] == p[h[c + 1]];
    assert q[h[c] + 1..h[c + 1]] == p[h[c] + 1..h[c + 1]];
  }

  /** A new chapter record closes the chapter before it at the page before its own. */
  lemma ChapterClosed(p: seq<BookmarkInfo>, x: BookmarkInfo, h: seq<nat>, h2: seq<nat>, c: nat, pageCount: nat)
    requires ValidHeads(p, h) && ValidHeads(p + [x], h2)
    requires c + 1 == |h| && h2 == h + [|p|]
    ensures ChapterAt(p + [x], h2, c, pageCount) == ChapterAt(p, h, c, pageCount).(endPage := x.page - 1)
  {
    var q := p + [x];
    var s := h[c];
    assert h2[c] == s && h2[c + 1] == |p|;
    assert q[s] == p[s];
    assert ChapterEnd(q, h2, c, pageCount) == x.page - 1 by {
      assert q[|p|] == x;
    }
    assert ChapterSections(q, h2, c, pageCount) == ChapterSections(p, h, c, pageCount) by {
      var tail := p[s + 1..|p|];
      assert NextHead(h2, c, |q|) == |p| && NextHead(h, c, |p|) == |p|;
      assert q[s + 1..|p|] == tail;
    }
  }

  /** A new chapter record opens a chapter that runs to the end and has no sections yet. */
  lemma ChapterOpened(p: seq<BookmarkInfo>, x: BookmarkInfo, pageCount: nat)
    requires x.level == 1
    ensures var h := Heads(p);
      ChapterAt(p + [x], Heads(p + [x]), |h|, pageCount) == Chapter(x.title, x.page, pageCount - 1, [])
  {
    var q := p + [x];
    HeadsSnoc(p, x);
    var h := Heads(p);
    assert Heads(q)[|h|] == |p|;
    assert q[|p|] == x;
    assert q[|p| + 1..|q|] == [];
  }

  /** The last chapter, opened by the chapter record at `s`: it runs to the end and holds every later section record. */
  function LastChapter(infos: seq<BookmarkInfo>, s: nat, pageCount: nat): Chapter
    requires s < |infos|
  {
    Chapter(infos[s].title, infos[s].page, pageCount - 1, SectionsOf(Level2(infos[s + 1..]), pageCount))
  }

  lemma ChapterAtLast(infos: seq<BookmarkInfo>, pageCount: nat)
    requires Heads(infos) != []
    ensures var h := Heads(infos);
      ChapterAt(infos, h, |h| - 1, pageCount) == LastChapter(infos, h[|h| - 1], pageCount)
  {
    var h := Heads(infos);
    var c := |h| - 1;
    var s := h[c];
    assert NextHead(h, c, |infos|) == |infos|;
    assert ChapterEnd(infos, h, c, pageCount) == pageCount - 1;
    assert infos[s + 1..|infos|] == infos[s + 1..];
  }

  /** One more record after the last chapter record: a section joins the chapter and closes the section before it; anything else changes nothing. */
  lemma LastChapterSnoc(p: seq<BookmarkInfo>, x: BookmarkInfo, s: nat, pageCount: nat)
    requires s < |p|
    ensures var prev := LastChapter(p, s, pageCount);
      LastChapter(p + [x], s, pageCount) ==
        if x.level == 2 then
          prev.(sections := (if prev.sections == [] then [] else SetLastSectionEnd(prev.sections, x.page - 1))
            + [Section(x.title, x.page, pageCount - 1)])
        else prev
  {
    var e := p[s + 1..];
    assert (p + [x])[s + 1..] == e + [x];
    assert (p + [x])[s] == p[s];
    Level2Snoc(e, x);
    SectionsOfSnoc(Level2(e), x, pageCount);
  }

  /** A chapter record closes the previous chapter and opens an empty one. */
  lemma StepChapter(p: seq<BookmarkInfo>, x: BookmarkInfo, pageCount: nat)
    requires x.level == 1
    ensures var prev := Hierarchy(p, pageCount);
      Hierarchy(p + [x], pageCount) ==
        (if prev == [] then [] else SetLastChapterEnd(prev, x.page - 1)) + [Chapter(x.title, x.page, pageCount - 1, [])]
  {
    var q := p + [x];
    HeadsSnoc(p, x);
    var h := Heads(p);
    var h2 := Heads(q);
    var prev := Hierarchy(p, pageCount);
    var a := Hierarchy(q, pageCount);
    var b := (if prev == [] then [] else SetLastChapterEnd(prev, x.page - 1)) + [Chapter(x.title, x.page, pageCount - 1, [])];
    assert |a| == |b|;
    forall c | 0 <= c < |a|
      ensures a[c] == b[c]
    {
      if c + 1 < |h| {
        ChapterStable(p, x, h, h2, c, pageCount);
      } else if c + 1 == |h| {
        ChapterClosed(p, x, h, h2, c, pageCount);
      } else {
        ChapterOpened(p, x, pageCount);
      }
    }
  }

  /** A record that is not a chapter record keeps every chapter but the last. */
  lemma NonChapterPrefix(p: seq<BookmarkInfo>, x: BookmarkInfo, pageCount: nat)
    requires x.level != 1 && Heads(p) != []
    ensures var h := Heads(p); var prev := Hierarchy(p, pageCount); var next := Hierarchy(p + [x], pageCount);
      |next| == |prev| == |h| && forall c :: 0 <= c < |h| - 1 ==> next[c] == prev[c]
  {
    var h := Heads(p);
    var q := p + [x];
    assert Heads(q) == h by {
      HeadsSnoc(p, x);
    }
    var prev := Hierarchy(p, pageCount);
    var next := Hierarchy(q, pageCount);
    forall c | 0 <= c < |h| - 1
      ensures next[c] == prev[c]
    {
      assert next[c] == ChapterAt(q, h, c, pageCount);
      ChapterStable(p, x, h, h, c, pageCount);
    }
  }

  /** The last chapter of the hierarchy is the one its chapter record opens. */
  lemma HierarchyLast(infos: seq<BookmarkInfo>, pageCount: nat)
    requires Heads(infos) != []
    ensures var h := Heads(infos); var ch := Hierarchy(infos, pageCount);
      ch[|h| - 1] == LastChapter(infos, h[|h| - 1], pageCount)
  {
    ChapterAtLast(infos, pageCount);
  }

  /**
   * A record that is not a chapter record keeps every chapter but the last,
   * and the last chapter is the one its chapter record opens.
   */
  lemma NonChapterStep(p: seq<BookmarkInfo>, x: BookmarkInfo, pageCount: nat)
    requires x.level != 1 && Heads(p) != []
    ensures var h := Heads(p); var prev := Hierarchy(p, pageCount); var next := Hierarchy(p + [x], pageCount);
      |next| == |prev| == |h| &&
      next[..|h| - 1] == prev[..|h| - 1] &&
      prev[|h| - 1] == LastChapter(p, h[|h| - 1], pageCount) &&
      next[|h| - 1] == LastChapter(p + [x], h[|h| - 1], pageCount)
  {
    HeadsSnoc(p, x);
    NonChapterPrefix(p, x, pageCount);
    HierarchyLast(p, pageCount);
    HierarchyLast(p + [x], pageCount);
  }

  /** A section record after some chapter joins the last chapter and closes its previous section. */
  lemma StepSection(p: seq<BookmarkInfo>, x: BookmarkInfo, pageCount: nat)
    requires x.level == 2 && Hierarchy(p, pageCount) != []
    ensures var prev := Hierarchy(p, pageCount);
      var last := prev[|prev| - 1];
      Hierarchy(p + [x], pageCount) ==
        prev[..|prev| - 1] + [last.(sections :=
          (if last.sections == [] then [] else SetLastSectionEnd(last.sections, x.page - 1))
          + [Section(x.title, x.page, pageCount - 1)])]
  {
    var h := Heads(p);
    NonChapterStep(p, x, pageCount);
    LastChapterSnoc(p, x, h[|h| - 1], pageCount);
    var next := Hierarchy(p + [x], pageCount);
    assert next == next[..|h| - 1] + [next[|h| - 1]];
  }

  /** Any other record (a section before the first chapter) leaves the hierarchy as it is. */
  lemma StepSkip(p: seq<BookmarkInfo>, x: BookmarkInfo, pageCount: nat)
    requires x.level != 1
    requires x.level == 2 ==> Hierarchy(p, pageCount) == []
    ensures Hierarchy(p + [x], pageCount) == Hierarchy(p, pageCount)
  {
    var h := Heads(p);
    HeadsSnoc(p, x);
    var prev := Hierarchy(p, pageCount);
    var next := Hierarchy(p + [x], pageCount);
    if h == [] {
      assert |next| == 0 && |prev| == 0;
    } else {
      var c := |h| - 1;
      assert x.level != 2;
      NonChapterStep(p, x, pageCount);
      LastChapterSnoc(p, x, h[c], pageCount);
      assert next[c] == prev[c];
      assert next == next[..c] + [next[c]];
      assert prev == prev[..c] + [prev[c]];
    }
  }

  /** In the hierarchy the last section of the last chapter already ends where its chapter ends. */
  lemma LastSectionOfLastChapter(infos: seq<BookmarkInfo>, pageCount: nat)
    requires var ch := Hierarchy(infos, pageCount); ch != [] && ch[|ch| - 1].sections != []
    ensures var ch := Hierarchy(infos, pageCount);
      var secs := ch[|ch| - 1].sections;
      secs[|secs| - 1].endPage == ch[|ch| - 1].endPage == pageCount - 1
  {
  }

  /** Setting the last section's end to its chapter's end changes nothing when it already ends there. */
  lemma ClampLastNoop(chapters: seq<Chapter>)
    requires chapters != [] && chapters[|chapters| - 1].sections != []
    requires var secs := chapters[|chapters| - 1].sections; secs[|secs| - 1].endPage == chapters[|chapters| - 1].endPage
    ensures var current := chapters[|chapters| - 1];
      chapters[..|chapters| - 1] + [current.(sections := SetLastSectionEnd(current.sections, current.endPage))] == chapters
  {
    var current := chapters[|chapters| - 1];
    assert SetLastSectionEnd(current.sections, current.endPage) == current.sections;
  }

  // ---------------------------------------------------------------------
  // Properties of the hierarchy
  // ---------------------------------------------------------------------

  /** There is one chapter per chapter (level-1) record. */
  lemma {:induction false} HeadsCount(infos: seq<BookmarkInfo>)
    ensures |Heads(infos)| == CountLevel(infos, 1)
  {
    if infos != [] {
      HeadsCount(infos[..|infos| - 1]);
    }
  }

  lemma HierarchyCount(infos: seq<BookmarkInfo>, pageCount: nat)
    ensures |Hierarchy(infos, pageCount)| == CountLevel(infos, 1)
  {
    HeadsCount(infos);
  }

  /**
   * Chapters are adjacent: each ends on the page before the next one starts,
   * and the last one ends on the last page of the document.
   */
  lemma ChaptersAdjacent(infos: seq<BookmarkInfo>, pageCount: nat)
    ensures var ch := Hierarchy(infos, pageCount);
      (forall c :: 0 <= c < |ch| - 1 ==> ch[c].endPage + 1 == ch[c + 1].startPage) &&
      (ch != [] ==> ch[|ch| - 1].endPage == pageCount - 1)
  {
  }

  /** Within a chapter each section ends on the page before the next section starts. */
  lemma SectionsAdjacent(infos: seq<BookmarkInfo>, pageCount: nat, c: nat)
    requires c < |Hierarchy(infos, pageCount)|
    ensures var secs := Hierarchy(infos, pageCount)[c].sections;
      forall j :: 0 <= j < |secs| - 1 ==> secs[j].endPage + 1 == secs[j + 1].startPage
  {
  }

  /**
   * As written, the last section of every chapter that has sections ends on
   * the last page of the document, because the final clamp touches the last
   * chapter only.
   */
  lemma AsWrittenLastSectionEnd(infos: seq<BookmarkInfo>, pageCount: nat, c: nat)
    requires c < |Hierarchy(infos, pageCount)| && Hierarchy(infos, pageCount)[c].sections != []
    ensures var secs := Hierarchy(infos, pageCount)[c].sections;
      secs[|secs| - 1].endPage == pageCount - 1
  {
  }

  /**
   * Chapter 1 at page 0 with a section at page 0, chapter 2 at page 5, ten
   * pages: chapter 1 ends on page 4, but its section runs to page 9 and so
   * takes in all of chapter 2. Each record carries the level its title gets.
   */
  lemma AsWrittenSectionOverruns()
    ensures TitleLevel("Chapter 1") == 1 && TitleLevel("Section 1.1") == 2 && TitleLevel("Chapter 2") == 1
    ensures var infos := [BookmarkInfo("Chapter 1", 0, 1, 0), BookmarkInfo("Section 1.1", 0, 2, 1), BookmarkInfo("Chapter 2", 5, 1, 2)];
      var ch := Hierarchy(infos, 10);
      |ch| == 2 && ch[0].endPage == 4 && ch[0].sections == [Section("Section 1.1", 0, 9)]
  {
    assert TitleLevel("Chapter 1") == 1 by {
      ChapterTitleLevel("Chapter 1", " 1");
    }
    assert TitleLevel("Chapter 2") == 1 by {
      ChapterTitleLevel("Chapter 2", " 2");
    }
    assert TitleLevel("Section 1.1") == 2 by {
      SectionTitleLevel();
    }
    SectionOverrunsAt(BookmarkInfo("Chapter 1", 0, 1, 0), BookmarkInfo("Section 1.1", 0, 2, 1), BookmarkInfo("Chapter 2", 5, 1, 2), 10);
  }

  /** "Section 1.1" holds a section keyword and no chapter keyword. */
  lemma SectionTitleLevel()
    ensures TitleLevel("Section 1.1") == 2
  {
    var lower := Lower("Section 1.1");
    assert lower == "section 1.1";
    forall w | w in ChapterIndicators
      ensures !Contains(lower, w)
    {
      if w == "章" {
        MissingCharNotContained(lower, w, '章');
      } else if w == "chapter" {
        MissingCharNotContained(lower, w, 'h');
      } else {
        MissingCharNotContained(lower, w, 'p');
      }
    }
    assert SectionIndicators[1] in SectionIndicators && OccursAt(lower, SectionIndicators[1], 0);
  }

  /** A title that starts with "Chapter" is a chapter. */
  lemma ChapterTitleLevel(title: string, rest: string)
    requires title == "Chapter" + rest
    ensures TitleLevel(title) == 1
  {
    var w := ChapterIndicators[1];
    assert w in ChapterIndicators;
    assert Lower(title)[..7] == "chapter";
    assert OccursAt(Lower(title), w, 0);
  }

  /** A chapter, one section, then a second chapter: the section runs to the end of the document. */
  lemma SectionOverrunsAt(a: BookmarkInfo, b: BookmarkInfo, d: BookmarkInfo, pageCount: nat)
    requires a.level == 1 && b.level == 2 && d.level == 1
    ensures var ch := Hierarchy([a, b, d], pageCount);
      |ch| == 2 && ch[0].endPage == d.page - 1 && ch[0].sections == [Section(b.title, b.page, pageCount - 1)]
  {
    var infos := [a, b, d];
    HeadsSnoc([], a);
    assert [a] == [] + [a];
    HeadsSnoc([a], b);
    assert [a, b] == [a] + [b];
    HeadsSnoc([a, b], d);
    assert infos == [a, b] + [d];
    assert Heads(infos) == [0, 2];
    assert infos[1..2] == [b];
    Level2Snoc([], b);
    assert [b] == [] + [b];
    assert Level2([b]) == [b];
  }

  /** Set each chapter's last section to end where its chapter ends. */
  function ClampLast(ch: Chapter): (r: Chapter)
    ensures r.title == ch.title && r.startPage == ch.startPage && r.endPage == ch.endPage
    ensures |r.sections| == |ch.sections|
    ensures forall j :: 0 <= j < |ch.sections| - 1 ==> r.sections[j] == ch.sections[j]
    ensures ch.sections != [] ==> r.sections[|r.sections| - 1] == ch.sections[|ch.sections| - 1].(endPage := ch.endPage)
  {
    if ch.sections == [] then ch else ch.(sections := SetLastSectionEnd(ch.sections, ch.endPage))
  }

  /** The clamp the final step evidently intends, applied to every chapter rather than to the last one only. */
  function ClampSections(chapters: seq<Chapter>): (r: seq<Chapter>)
    ensures |r| == |chapters|
    ensures forall c :: 0 <= c < |r| ==> r[c] == ClampLast(chapters[c])
  {
    seq(|chapters|, c requires 0 <= c < |chapters| => ClampLast(chapters[c]))
  }

  /**
   * After the clamp the sections of every chapter tile it up to its end:
   * each ends on the page before the next, and the last ends with the
   * chapter; the chapters themselves are unchanged.
   */
  lemma ClampedSectionsTile(infos: seq<BookmarkInfo>, pageCount: nat, c: nat)
    requires c < |Hierarchy(infos, pageCount)|
    ensures var ch := ClampSections(Hierarchy(infos, pageCount))[c];
      var secs := ch.sections;
      (forall j :: 0 <= j < |secs| - 1 ==> secs[j].endPage + 1 == secs[j + 1].startPage) &&
      (secs != [] ==> secs[|secs| - 1].endPage == ch.endPage) &&
      ch.endPage == Hierarchy(infos, pageCount)[c].endPage
  {
    SectionsAdjacent(infos, pageCount, c);
    var before := Hierarchy(infos, pageCount)[c];
    var secs := ClampSections(Hierarchy(infos, pageCount))[c].sections;
    forall j | 0 <= j < |secs| - 1
      ensures secs[j].endPage + 1 == secs[j + 1].startPage
    {
      assert secs[j + 1].startPage == before.sections[j + 1].startPage;
    }
  }

  /** The clamp leaves a hierarchy whose last sections already end with their chapters as it is; the last chapter's always does. */
  lemma ClampKeepsLastChapter(infos: seq<BookmarkInfo>, pageCount: nat)
    requires Hierarchy(infos, pageCount) != []
    ensures var ch := Hierarchy(infos, pageCount);
      ClampSections(ch)[|ch| - 1] == ch[|ch| - 1]
  {
    var ch := Hierarchy(infos, pageCount);
    var last := ch[|ch| - 1];
    if last.sections != [] {
      LastSectionOfLastChapter(infos, pageCount);
      assert SetLastSectionEnd(last.sections, last.endPage) == last.sections;
    }
  }

  // ---------------------------------------------------------------------
  // get_bookmarks_hierarchy
  // ---------------------------------------------------------------------

  /**
   * The first loop of `get_bookmarks_hierarchy`: walk the top-level outline
   * and keep each classified page bookmark whose page lookup succeeds.
   */
  method CollectRecognised(outline: seq<OutlineItem>, corrected: bool) returns (infos: seq<BookmarkInfo>)
    ensures infos == Recognised(outline, corrected)
  {
    infos := [];
    var i := 0;
    while i < |outline|
      invariant i <= |outline|
      invariant infos == Kept(Records(outline, corrected)[..i])
    {
      assert Records(outline, corrected)[..i + 1] == Records(outline, corrected)[..i] + [InfoAt(outline, i, corrected)];
      KeptSnoc(Records(outline, corrected)[..i], InfoAt(outline, i, corrected));
      var item := outline[i];
      var level := BookmarkLevel(item, corrected);
      if level > 0 && item.page.Some? {
        var title := if item.title.Some? then item.title.value else "Bookmark " + NatToDecimal(i + 1);
        infos := infos + [BookmarkInfo(title, item.page.value, level, i)];
      }
      i := i + 1;
    }
    assert Records(outline, corrected)[..|outline|] == Records(outline, corrected);
  }

  /**
   * The second loop of `get_bookmarks_hierarchy`: a chapter record closes
   * the previous chapter and opens a new one; a section record after some
   * chapter closes the previous section of the current chapter and opens a
   * new one; anything else is passed over.
   */
  method BuildHierarchy(infos: seq<BookmarkInfo>, pageCount: nat) returns (chapters: seq<Chapter>)
    ensures chapters == Hierarchy(infos, pageCount)
  {
    chapters := [];
    var k := 0;
    while k < |infos|
      invariant k <= |infos|
      invariant chapters == Hierarchy(infos[..k], pageCount)
    {
      var b := infos[k];
      var next := k + 1;
      var done := infos[..k];
      PrefixSnoc(infos, k, b);
      if b.level == 1 {
        StepChapter(done, b, pageCount);
        if chapters != [] {
          chapters := SetLastChapterEnd(chapters, b.page - 1);
        }
        chapters := chapters + [Chapter(b.title, b.page, pageCount - 1, [])];
      } else if b.level == 2 && chapters != [] {
        StepSection(done, b, pageCount);
        var current := chapters[|chapters| - 1];
        var sections := current.sections;
        if sections != [] {
          sections := SetLastSectionEnd(sections, b.page - 1);
        }
        sections := sections + [Section(b.title, b.page, pageCount - 1)];
        chapters := chapters[..|chapters| - 1] + [current.(sections := sections)];
      } else {
        StepSkip(done, b, pageCount);
      }
      k := next;
    }
    assert infos[..|infos|] == infos;
  }

  /**
   * `get_bookmarks_hierarchy`: an empty outline gives no chapters; otherwise
   * the recognised records are arranged into chapters, and finally the last
   * section of the last chapter is set to end where that chapter ends.
   */
  method GetBookmarksHierarchy(outline: seq<OutlineItem>, pageCount: nat, corrected: bool) returns (chapters: seq<Chapter>)
    ensures chapters == Hierarchy(Recognised(outline, corrected), pageCount)
  {
    if outline == [] {
      return [];
    }
    var infos := CollectRecognised(outline, corrected);
    chapters := BuildHierarchy(infos, pageCount);
    if chapters != [] && chapters[|chapters| - 1].sections != [] {
      var current := chapters[|chapters| - 1];
      var clamped := chapters[..|chapters| - 1] + [current.(sections := SetLastSectionEnd(current.sections, current.endPage))];
      assert clamped == chapters by {
        LastSectionOfLastChapter(infos, pageCount);
        ClampLastNoop(chapters);
      }
      chapters := clamped;
    }
  }

  // ---------------------------------------------------------------------
  // The split plan of `split_pdf`
  // ---------------------------------------------------------------------

  /** One output document: its file name and the pages of the input it receives, in order. */
  datatype OutputFile = OutputFile(name: string, pages: seq<nat>)

  /** `NN-title.pdf` holding the existing pages of the chapter's range. */
  function ChapterFile(i: nat, ch: Chapter, pageCount: nat): OutputFile {
    OutputFile(NumberedName(i, CreateValidFilename(ch.title)), PageSpan(ch.startPage, ch.endPage, pageCount))
  }

  /** `NN-MM-title.pdf` holding the existing pages of the section's range. */
  function SectionFile(i: nat, j: nat, sec: Section, pageCount: nat): OutputFile {
    OutputFile(NumberedName(i, ZeroPad2(j) + "-" + CreateValidFilename(sec.title)), PageSpan(sec.startPage, sec.endPage, pageCount))
  }

  /** Split by chapter: one file per chapter, numbered from 1. */
  function ChapterModeFiles(chapters: seq<Chapter>, pageCount: nat): (files: seq<OutputFile>)
    ensures |files| == |chapters|
  {
    seq(|chapters|, c requires 0 <= c < |chapters| => ChapterFile(c + 1, chapters[c], pageCount))
  }

  /** One file per section of chapter number `i`, numbered from 1 within the chapter. */
  function SectionFileList(i: nat, sections: seq<Section>, pageCount: nat): (files: seq<OutputFile>)
    ensures |files| == |sections|
  {
    seq(|sections|, j requires 0 <= j < |sections| => SectionFile(i, j + 1, sections[j], pageCount))
  }

  /** The files of chapter number `i` when splitting by section: one per section, or the whole chapter when it has none. */
  function SectionFiles(i: nat, ch: Chapter, pageCount: nat): (files: seq<OutputFile>)
    ensures files != []
  {
    if ch.sections == [] then [ChapterFile(i, ch, pageCount)]
    else SectionFileList(i, ch.sections, pageCount)
  }

  /** Split by section: the files of each chapter in turn. */
  function SectionModeFiles(chapters: seq<Chapter>, pageCount: nat): seq<OutputFile> {
    if chapters == [] then []
    else SectionModeFiles(chapters[..|chapters| - 1], pageCount) + SectionFiles(|chapters|, chapters[|chapters| - 1], pageCount)
  }

  /** What `split_pdf` writes for a split level: level 1 by chapter, level 2 by section, nothing for any other level. */
  function SplitPlan(chapters: seq<Chapter>, pageCount: nat, splitLevel: int): seq<OutputFile> {
    if splitLevel == 1 then ChapterModeFiles(chapters, pageCount)
    else if splitLevel == 2 then SectionModeFiles(chapters, pageCount)
    else []
  }

  /** One chapter's file: select its pages and name the file after its number and title. */
  method WriteChapterFile(i: nat, ch: Chapter, pageCount: nat) returns (file: OutputFile)
    ensures file == ChapterFile(i, ch, pageCount)
  {
    var pages := SelectPages(ch.startPage, ch.endPage, pageCount);
    file := OutputFile(NumberedName(i, CreateValidFilename(ch.title)), pages);
  }

  /** Section number `j` of chapter number `i`: select its pages and name the file after both numbers and its title. */
  method WriteSectionFile(i: nat, j: nat, sec: Section, pageCount: nat) returns (file: OutputFile)
    ensures file == SectionFile(i, j, sec, pageCount)
  {
    var pages := SelectPages(sec.startPage, sec.endPage, pageCount);
    file := OutputFile(NumberedName(i, ZeroPad2(j) + "-" + CreateValidFilename(sec.title)), pages);
  }

  /** Split by chapter: one file per chapter, numbered from 1. */
  method WriteChapters(chapters: seq<Chapter>, pageCount: nat) returns (files: seq<OutputFile>)
    ensures files == ChapterModeFiles(chapters, pageCount)
  {
    ghost var all := ChapterModeFiles(chapters, pageCount);
    files := [];
    var c := 0;
    while c < |chapters|
      invariant c <= |chapters|
      invariant files == all[..c]
    {
      var next := c + 1;
      var file := WriteChapterFile(next, chapters[c], pageCount);
      PrefixSnoc(all, c, file);
      files := files + [file];
      c := next;
    }
    assert all[..c] == all;
  }

  /** One file per section of chapter number `i`, numbered from 1 within the chapter. */
  method WriteSectionFiles(i: nat, sections: seq<Section>, pageCount: nat) returns (written: seq<OutputFile>)
    ensures written == SectionFileList(i, sections, pageCount)
  {
    ghost var all := SectionFileList(i, sections, pageCount);
    written := [];
    var j := 0;
    while j < |sections|
      invariant j <= |sections|
      invariant written == all[..j]
    {
      var next := j + 1;
      var file := WriteSectionFile(i, next, sections[j], pageCount);
      PrefixSnoc(all, j, file);
      written := written + [file];
      j := next;
    }
    assert all[..j] == all;
  }

  /** The files of chapter number `i` when splitting by section: a chapter without sections is written whole. */
  method WriteChapterSections(i: nat, ch: Chapter, pageCount: nat) returns (written: seq<OutputFile>)
    ensures written == SectionFiles(i, ch, pageCount)
  {
    if ch.sections == [] {
      var file := WriteChapterFile(i, ch, pageCount);
      written := [file];
    } else {
      written := WriteSectionFiles(i, ch.sections, pageCount);
    }
  }

  /** Split by section: the files of each chapter in turn. */
  method WriteSections(chapters: seq<Chapter>, pageCount: nat) returns (files: seq<OutputFile>)
    ensures files == SectionModeFiles(chapters, pageCount)
  {
    files := [];
    var c := 0;
    while c < |chapters|
      invariant c <= |chapters|
      invariant files == SectionModeFiles(chapters[..c], pageCount)
    {
      assert chapters[..c + 1][..c] == chapters[..c];
      var written := WriteChapterSections(c + 1, chapters[c], pageCount);
      files := files + written;
      c := c + 1;
    }
    assert chapters[..|chapters|] == chapters;
  }

  /** The output step of `split_pdf` for a split level. */
  method PlanSplit(chapters: seq<Chapter>, pageCount: nat, splitLevel: int) returns (files: seq<OutputFile>)
    ensures files == SplitPlan(chapters, pageCount, splitLevel)
  {
    if splitLevel == 1 {
      files := WriteChapters(chapters, pageCount);
      assert files == ChapterModeFiles(chapters, pageCount);
    } else if splitLevel == 2 {
      files := WriteSections(chapters, pageCount);
    } else {
      files := [];
    }
  }

  /**
   * `split_pdf` on an outline: build the hierarchy and write the files for
   * the split level. As written (`corrected` false) that is all; corrected,
   * numbered titles are classified by their numbering and every chapter's
   * last section ends with its chapter. An outline without chapters writes
   * nothing.
   */
  method SplitPdf(outline: seq<OutlineItem>, pageCount: nat, splitLevel: int, corrected: bool) returns (files: seq<OutputFile>)
    ensures var chapters := Hierarchy(Recognised(outline, corrected), pageCount);
      files == SplitPlan(if corrected then ClampSections(chapters) else chapters, pageCount, splitLevel)
    ensures Hierarchy(Recognised(outline, corrected), pageCount) == [] ==> files == []
  {
    var chapters := GetBookmarksHierarchy(outline, pageCount, corrected);
    if chapters == [] {
      assert SectionModeFiles([], pageCount) == [];
      return [];
    }
    if corrected {
      chapters := ClampSections(chapters);
    }
    files := PlanSplit(chapters, pageCount, splitLevel);
  }

  /** In chapter mode no two files share a name. */
  lemma ChapterModeNamesDistinct(chapters: seq<Chapter>, pageCount: nat)
    ensures var files := ChapterModeFiles(chapters, pageCount);
      forall k, l :: 0 <= k < l < |files| ==> files[k].name != files[l].name
  {
    var files := ChapterModeFiles(chapters, pageCount);
    forall k, l | 0 <= k < l < |files|
      ensures files[k].name != files[l].name
    {
      NumberedNamesDistinct(k + 1, CreateValidFilename(chapters[k].title), l + 1, CreateValidFilename(chapters[l].title));
    }
  }

  predicate DistinctNames(files: seq<OutputFile>) {
    forall k, l :: 0 <= k < l < |files| ==> files[k].name != files[l].name
  }

  /** Every file name leads with a number from `lo` to `hi`. */
  predicate NumberedWithin(files: seq<OutputFile>, lo: nat, hi: nat) {
    forall k :: 0 <= k < |files| ==>
      LeadingNumber(files[k].name).Some? && lo <= LeadingNumber(files[k].name).value <= hi
  }

  /** Every file of chapter number `i` in section mode carries `i` as its leading number, and they have distinct names. */
  lemma SectionFilesNumbered(i: nat, ch: Chapter, pageCount: nat)
    ensures NumberedWithin(SectionFiles(i, ch, pageCount), i, i)
    ensures DistinctNames(SectionFiles(i, ch, pageCount))
  {
    var files := SectionFiles(i, ch, pageCount);
    if ch.sections == [] {
      NumberedNameNumber(i, CreateValidFilename(ch.title));
    } else {
      forall k | 0 <= k < |files|
        ensures LeadingNumber(files[k].name) == Some(i) && SecondNumber(files[k].name) == Some(k + 1)
      {
        SectionNameNumbers(i, k + 1, CreateValidFilename(ch.sections[k].title));
      }
    }
  }

  /** Files numbered below `n` followed by files numbered `n` keep distinct names. */
  lemma DistinctAppend(before: seq<OutputFile>, added: seq<OutputFile>, n: nat)
    requires 1 <= n
    requires NumberedWithin(before, 1, n - 1) && DistinctNames(before)
    requires NumberedWithin(added, n, n) && DistinctNames(added)
    ensures NumberedWithin(before + added, 1, n) && DistinctNames(before + added)
  {
    var files := before + added;
    forall k, l | 0 <= k < l < |files|
      ensures files[k].name != files[l].name
    {
      if l >= |before| {
        assert files[l] == added[l - |before|];
        if k >= |before| {
          assert files[k] == added[k - |before|];
        } else {
          assert files[k] == before[k];
        }
      } else {
        assert files[k] == before[k] && files[l] == before[l];
      }
    }
    forall k | 0 <= k < |files|
      ensures LeadingNumber(files[k].name).Some? && 1 <= LeadingNumber(files[k].name).value <= n
    {
      if k >= |before| {
        assert files[k] == added[k - |before|];
      } else {
        assert files[k] == before[k];
      }
    }
  }

  /**
   * In section mode no two files share a name: files of different chapters
   * differ in their leading number, sections of one chapter in their second.
   */
  lemma {:induction false} SectionModeNamesDistinct(chapters: seq<Chapter>, pageCount: nat)
    ensures NumberedWithin(SectionModeFiles(chapters, pageCount), 1, |chapters|)
    ensures DistinctNames(SectionModeFiles(chapters, pageCount))
  {
    if chapters != [] {
      var n := |chapters|;
      SectionModeNamesDistinct(chapters[..n - 1], pageCount);
      SectionFilesNumbered(n, chapters[n - 1], pageCount);
      DistinctAppend(SectionModeFiles(chapters[..n - 1], pageCount), SectionFiles(n, chapters[n - 1], pageCount), n);
    }
  }

  /** The pages each file receives, in file order. */
  function PagesOf(files: seq<OutputFile>): (pages: seq<seq<nat>>)
    ensures |pages| == |files| && forall k :: 0 <= k < |files| ==> pages[k] == files[k].pages
  {
    seq(|files|, k requires 0 <= k < |files| => files[k].pages)
  }

  /** The page range of each chapter. */
  function ChapterRanges(chapters: seq<Chapter>): (ranges: seq<PageRange>)
    ensures |ranges| == |chapters|
    ensures forall c :: 0 <= c < |chapters| ==> ranges[c] == PageRange(chapters[c].startPage, chapters[c].endPage)
  {
    seq(|chapters|, c requires 0 <= c < |chapters| => PageRange(chapters[c].startPage, chapters[c].endPage))
  }

  lemma ChapterModePages(chapters: seq<Chapter>, pageCount: nat)
    ensures PagesOf(ChapterModeFiles(chapters, pageCount)) == Spans(ChapterRanges(chapters), pageCount)
  {
  }

  /**
   * When chapters follow one another (each starts where the previous ends,
   * in page order), splitting by chapter hands out every existing page from
   * the first chapter's start to the last chapter's end exactly once, in order.
   */
  lemma ChapterModeCoversPages(chapters: seq<Chapter>, pageCount: nat)
    requires chapters != []
    requires forall c :: 0 <= c < |chapters| - 1 ==>
      chapters[c].startPage <= chapters[c + 1].startPage == chapters[c].endPage + 1
    requires chapters[|chapters| - 1].startPage <= chapters[|chapters| - 1].endPage + 1
    ensures Flatten(PagesOf(ChapterModeFiles(chapters, pageCount))) ==
      PageSpan(chapters[0].startPage, chapters[|chapters| - 1].endPage, pageCount)
  {
    ChapterModePages(chapters, pageCount);
    SpansJoin(ChapterRanges(chapters), pageCount);
  }
}
