/**
 * The bookmark splitter: every top-level page bookmark starts a part that
 * runs to the page before the next one (in page order), and each part is
 * written with the bookmarks that fall inside it, rebased to its first page.
 */
module SplitByBookmarks {
  import opened Wrappers
  import opened Text
  import opened Outline
  import opened Sorting

  // ---------------------------------------------------------------------
  // Collecting the valid top-level bookmarks
  // ---------------------------------------------------------------------

  /** A top-level bookmark whose page lookup succeeded. */
  datatype ValidBookmark = ValidBookmark(title: string, page: nat)

  /**
   * The top-level entry at position `i`: a page bookmark whose lookup
   * succeeds is kept, titled "Chapter {i+1}" when it has no title; any
   * other entry, or a failed lookup, is skipped.
   */
  function ValidAt(item: OutlineItem, i: nat): (r: Option<ValidBookmark>)
    ensures r.Some? <==> IsPageBookmark(item) && item.page.Some?
    ensures r.Some? ==> r.value.page == item.page.value
  {
    if IsPageBookmark(item) && item.page.Some? then
      var title := if item.title.Some? then item.title.value else "Chapter " + NatToDecimal(i + 1);
      Some(ValidBookmark(title, item.page.value))
    else None
  }

  /** The kept bookmarks of the top level, in outline order. */
  function ValidBookmarks(outline: seq<OutlineItem>): (valid: seq<ValidBookmark>)
    ensures |valid| <= |outline|
  {
    if outline == [] then []
    else
      var n := |outline| - 1;
      ValidBookmarks(outline[..n]) + (if ValidAt(outline[n], n).Some? then [ValidAt(outline[n], n).value] else [])
  }

  /** A bookmark is kept exactly when some top-level entry yields it. */
  lemma {:induction false} ValidBookmarksMembers(outline: seq<OutlineItem>, b: ValidBookmark)
    ensures b in ValidBookmarks(outline) <==> exists i :: 0 <= i < |outline| && ValidAt(outline[i], i) == Some(b)
  {
    if outline != [] {
      var n := |outline| - 1;
      var prefix := outline[..n];
      ValidBookmarksMembers(prefix, b);
      if b in ValidBookmarks(prefix) {
        var i :| 0 <= i < |prefix| && ValidAt(prefix[i], i) == Some(b);
        assert outline[i] == prefix[i];
      }
      if exists i :: 0 <= i < |outline| && ValidAt(outline[i], i) == Some(b) {
        var i :| 0 <= i < |outline| && ValidAt(outline[i], i) == Some(b);
        if i < n {
          assert prefix[i] == outline[i];
        }
      }
    }
  }

  /** Every kept bookmark is a top-level page bookmark whose lookup succeeded, at its own page. */
  lemma ValidBookmarksSound(outline: seq<OutlineItem>, b: ValidBookmark)
    requires b in ValidBookmarks(outline)
    ensures exists i :: 0 <= i < |outline| && IsPageBookmark(outline[i]) && outline[i].page == Some(b.page)
  {
    ValidBookmarksMembers(outline, b);
  }

  /** The first loop of `get_bookmarks_with_pages`. */
  method CollectValid(outline: seq<OutlineItem>) returns (valid: seq<ValidBookmark>)
    ensures valid == ValidBookmarks(outline)
  {
    valid := [];
    var i := 0;
    while i < |outline|
      invariant i <= |outline|
      invariant valid == ValidBookmarks(outline[..i])
    {
      assert outline[..i + 1][..i] == outline[..i];
      var item := outline[i];
      if IsPageBookmark(item) {
        var title := if item.title.Some? then item.title.value else "Chapter " + NatToDecimal(i + 1);
        if item.page.Some? {
          valid := valid + [ValidBookmark(title, item.page.value)];
        }
      }
      i := i + 1;
    }
    assert outline[..|outline|] == outline;
  }

  // ---------------------------------------------------------------------
  // Sorting and page ranges
  // ---------------------------------------------------------------------

  function PageOf(b: ValidBookmark): int {
    b.page
  }

  /** `valid_bookmarks.sort(key=lambda x: x[1])`: the stable sort by page. */
  function SortByPage(valid: seq<ValidBookmark>): seq<ValidBookmark> {
    SortBy(valid, PageOf, IntLess)
  }

  /** The sort puts the bookmarks in page order, keeps all of them, and keeps bookmarks of one page in outline order. */
  lemma SortByPageCorrect(valid: seq<ValidBookmark>, page: int)
    ensures var sorted := SortByPage(valid);
      SortedBy(sorted, PageOf, IntLess) &&
      multiset(sorted) == multiset(valid) &&
      WithKey(sorted, PageOf, page) == WithKey(valid, PageOf, page)
  {
    IntLessIsStrictTotalOrder();
    SortBySorted(valid, PageOf, IntLess);
    SortByStable(valid, PageOf, IntLess, page);
  }

  /** One part of the document: the bookmark's title and its inclusive page range. */
  datatype BookmarkRange = BookmarkRange(title: string, startPage: nat, endPage: int)

  /** Each part ends on the page before the next part starts; the last one on the last page. */
  function PageRanges(sorted: seq<ValidBookmark>, pageCount: nat): (ranges: seq<BookmarkRange>)
    ensures |ranges| == |sorted|
  {
    seq(|sorted|, k requires 0 <= k < |sorted| =>
      BookmarkRange(sorted[k].title, sorted[k].page,
        if k < |sorted| - 1 then sorted[k + 1].page - 1 else pageCount - 1))
  }

  /** `get_bookmarks_with_pages`: collect, sort by page, compute the ranges. */
  method GetBookmarksWithPages(outline: seq<OutlineItem>, pageCount: nat) returns (bookmarks: seq<BookmarkRange>)
    ensures bookmarks == PageRanges(SortByPage(ValidBookmarks(outline)), pageCount)
  {
    if outline == [] {
      return [];
    }
    var valid := CollectValid(outline);
    valid := SortByPage(valid);
    bookmarks := [];
    var k := 0;
    while k < |valid|
      invariant k <= |valid|
      invariant |bookmarks| == k
      invariant forall j :: 0 <= j < k ==> bookmarks[j] == PageRanges(valid, pageCount)[j]
    {
      var endPage := if k < |valid| - 1 then valid[k + 1].page - 1 else pageCount - 1;
      bookmarks := bookmarks + [BookmarkRange(valid[k].title, valid[k].page, endPage)];
      k := k + 1;
    }
  }

  /**
   * The parts keep the titles and start pages of the sorted bookmarks, each
   * ends on the page before the next part starts, and the last ends on the
   * last page.
   */
  lemma PageRangesAdjacent(sorted: seq<ValidBookmark>, pageCount: nat)
    ensures var ranges := PageRanges(sorted, pageCount);
      (forall k :: 0 <= k < |ranges| ==> ranges[k].title == sorted[k].title && ranges[k].startPage == sorted[k].page) &&
      (forall k :: 0 <= k < |ranges| - 1 ==> ranges[k].endPage + 1 == ranges[k + 1].startPage) &&
      (ranges != [] ==> ranges[|ranges| - 1].endPage == pageCount - 1)
  {
    var ranges := PageRanges(sorted, pageCount);
    forall k | 0 <= k < |ranges| - 1
      ensures ranges[k].endPage + 1 == ranges[k + 1].startPage
    {
      assert ranges[k].endPage == sorted[k + 1].page - 1;
    }
  }

  function RangesOf(ranges: seq<BookmarkRange>): (r: seq<PageRange>)
    ensures |r| == |ranges|
    ensures forall k :: 0 <= k < |ranges| ==> r[k] == PageRange(ranges[k].startPage, ranges[k].endPage)
  {
    seq(|ranges|, k requires 0 <= k < |ranges| => PageRange(ranges[k].startPage, ranges[k].endPage))
  }

  /** After the sort the parts follow one another without gap or overlap. */
  lemma SortedRangesConsecutive(valid: seq<ValidBookmark>, pageCount: nat)
    ensures Consecutive(RangesOf(PageRanges(SortByPage(valid), pageCount)))
  {
    var sorted := SortByPage(valid);
    SortByPageCorrect(valid, 0);
    var r := RangesOf(PageRanges(sorted, pageCount));
    forall k | 0 <= k < |r| - 1
      ensures r[k].startPage <= r[k + 1].startPage == r[k].endPage + 1
    {
      assert !IntLess(PageOf(sorted[k + 1]), PageOf(sorted[k]));
    }
  }

  /**
   * When every bookmark points into the document, the parts hand out every
   * page from the first bookmark's page to the end exactly once, in order.
   */
  lemma PartsCoverDocument(valid: seq<ValidBookmark>, pageCount: nat)
    requires valid != []
    requires forall k :: 0 <= k < |valid| ==> valid[k].page < pageCount
    ensures var ranges := PageRanges(SortByPage(valid), pageCount);
      Flatten(Spans(RangesOf(ranges), pageCount)) == PageSpan(ranges[0].startPage, pageCount - 1, pageCount)
  {
    var sorted := SortByPage(valid);
    var ranges := PageRanges(sorted, pageCount);
    var r := RangesOf(ranges);
    SortedRangesConsecutive(valid, pageCount);
    var last := sorted[|sorted| - 1];
    assert last in multiset(valid) by {
      SortByPageCorrect(valid, 0);
      assert last in multiset(sorted);
    }
    SpansJoin(r, pageCount);
  }

  // ---------------------------------------------------------------------
  // Nested bookmarks of one part
  // ---------------------------------------------------------------------

  /** A bookmark entry handed to the writer; `children` is always empty here. */
  datatype NestedBookmark = NestedBookmark(title: string, page: nat, children: seq<NestedBookmark>)

  /** The page bookmarks of an outline tree, depth first, in order. */
  function Leaves(item: OutlineItem): seq<OutlineItem>
    decreases item, 1
  {
    match item
    case Nested(items) => LeavesOf(items)
    case Destination(_, hasPageKey, _) => if hasPageKey then [item] else []
    case Other => []
  }

  function LeavesOf(items: seq<OutlineItem>): seq<OutlineItem>
    decreases items, 0
  {
    if items == [] then []
    else LeavesOf(items[..|items| - 1]) + Leaves(items[|items| - 1])
  }

  lemma LeavesOfSnoc(items: seq<OutlineItem>, k: nat)
    requires k < |items|
    ensures LeavesOf(items[..k + 1]) == LeavesOf(items[..k]) + Leaves(items[k])
  {
    assert items[..k + 1][..k] == items[..k];
  }

  lemma ProcessStep(items: seq<OutlineItem>, k: nat, start: nat, end: int, acc: seq<NestedBookmark>)
    requires k < |items|
    ensures acc + Window(LeavesOf(items[..k + 1]), start, end) ==
      acc + Window(LeavesOf(items[..k]), start, end) + Window(Leaves(items[k]), start, end)
  {
    LeavesOfSnoc(items, k);
    WindowAppend(LeavesOf(items[..k]), Leaves(items[k]), start, end);
  }

  /** A page bookmark inside `start..end`, rebased to the part; "Untitled Bookmark" when it has no title. */
  function InWindow(leaf: OutlineItem, start: nat, end: int): seq<NestedBookmark> {
    if leaf.Destination? && leaf.page.Some? && start <= leaf.page.value <= end then
      [NestedBookmark(if leaf.title.Some? then leaf.title.value else "Untitled Bookmark", leaf.page.value - start, [])]
    else []
  }

  /** The page bookmarks of `leaves` that fall inside `start..end`, in order. */
  function Window(leaves: seq<OutlineItem>, start: nat, end: int): seq<NestedBookmark> {
    if leaves == [] then []
    else Window(leaves[..|leaves| - 1], start, end) + InWindow(leaves[|leaves| - 1], start, end)
  }

  lemma {:induction false} WindowAppend(a: seq<OutlineItem>, b: seq<OutlineItem>, start: nat, end: int)
    ensures Window(a + b, start, end) == Window(a, start, end) + Window(b, start, end)
  {
    if b != [] {
      var n := |b| - 1;
      WindowAppend(a, b[..n], start, end);
      assert (a + b)[..|a + b| - 1] == a + b[..n];
    } else {
      assert a + b == a;
    }
  }

  /**
   * `get_nested_bookmarks`: the bookmarks anywhere in the outline whose page
   * lies in `start..end`, rebased to `start`, depth first.
   */
  function NestedBookmarks(outline: seq<OutlineItem>, start: nat, end: int): seq<NestedBookmark> {
    Window(LeavesOf(outline), start, end)
  }

  /**
   * `process_outline`: a list recurses into each item with the same
   * accumulator; a page bookmark inside the window is appended to it.
   */
  method ProcessOutline(item: OutlineItem, start: nat, end: int, acc: seq<NestedBookmark>) returns (result: seq<NestedBookmark>)
    ensures result == acc + Window(Leaves(item), start, end)
    decreases item, 1
  {
    match item
    case Nested(items) =>
      result := ProcessItems(items, start, end, acc);
    case Destination(title, hasPageKey, page) =>
      result := acc;
      if hasPageKey && page.Some? && start <= page.value <= end {
        var t := if title.Some? then title.value else "Untitled Bookmark";
        result := result + [NestedBookmark(t, page.value - start, [])];
      }
      assert Window([item], start, end) == Window([], start, end) + InWindow(item, start, end);
    case Other =>
      result := acc;
  }

  /** The `for item in outline` loop of `process_outline`. */
  method ProcessItems(items: seq<OutlineItem>, start: nat, end: int, acc: seq<NestedBookmark>) returns (result: seq<NestedBookmark>)
    ensures result == acc + Window(LeavesOf(items), start, end)
    decreases items, 0
  {
    result := acc;
    var k := 0;
    while k < |items|
      invariant k <= |items|
      invariant result == acc + Window(LeavesOf(items[..k]), start, end)
    {
      ProcessStep(items, k, start, end, acc);
      result := ProcessOutline(items[k], start, end, result);
      k := k + 1;
    }
    assert items[..|items|] == items;
  }

  /** `get_nested_bookmarks` starting from an empty list. */
  method GetNestedBookmarks(outline: seq<OutlineItem>, start: nat, end: int) returns (result: seq<NestedBookmark>)
    ensures result == NestedBookmarks(outline, start, end)
  {
    result := ProcessItems(outline, start, end, []);
  }

  /** Every bookmark of `w` points inside a part of `width` pages and has no children. */
  predicate InPart(w: seq<NestedBookmark>, width: int) {
    forall k :: 0 <= k < |w| ==> w[k].page < width && w[k].children == []
  }

  /** Every collected bookmark lies in the part, rebased to start at 0, and has no children. */
  lemma {:induction false} WindowInPart(leaves: seq<OutlineItem>, start: nat, end: int)
    ensures InPart(Window(leaves, start, end), end - start + 1)
  {
    if leaves != [] {
      var n := |leaves| - 1;
      WindowInPart(leaves[..n], start, end);
      var prev := Window(leaves[..n], start, end);
      var last := InWindow(leaves[n], start, end);
      assert InPart(last, end - start + 1);
      assert Window(leaves, start, end) == prev + last;
    }
  }

  /**
   * A bookmark is collected exactly when some page bookmark of the outline
   * lies in the part and, rebased, is that bookmark.
   */
  lemma {:induction false} WindowMembers(leaves: seq<OutlineItem>, start: nat, end: int, b: NestedBookmark)
    ensures b in Window(leaves, start, end) <==> exists k :: 0 <= k < |leaves| && InWindow(leaves[k], start, end) == [b]
  {
    if leaves != [] {
      var n := |leaves| - 1;
      var prefix := leaves[..n];
      WindowMembers(prefix, start, end, b);
      if b in Window(prefix, start, end) {
        var k :| 0 <= k < |prefix| && InWindow(prefix[k], start, end) == [b];
        assert leaves[k] == prefix[k];
      }
      if exists k :: 0 <= k < |leaves| && InWindow(leaves[k], start, end) == [b] {
        var k :| 0 <= k < |leaves| && InWindow(leaves[k], start, end) == [b];
        if k < n {
          assert prefix[k] == leaves[k];
        }
      }
    }
  }

  // ---------------------------------------------------------------------
  // Writing one part
  // ---------------------------------------------------------------------

  /** An outline item added to the writer; `parent` is the position of its parent item, if any. */
  datatype WriterItem = WriterItem(title: string, page: nat, parent: Option<nat>)

  /** The number of bookmarks in a forest, children included. */
  function Size(bookmarks: seq<NestedBookmark>): nat
    decreases bookmarks, 0
  {
    if bookmarks == [] then 0
    else Size(bookmarks[..|bookmarks| - 1]) + SizeOne(bookmarks[|bookmarks| - 1])
  }

  function SizeOne(b: NestedBookmark): nat
    decreases b, 1
  {
    1 + Size(b.children)
  }

  /**
   * The items `add_bookmarks_to_pdf` adds for one bookmark when `base` items
   * already exist: the bookmark under `parent`, then its children under it.
   */
  function OutlinedOne(b: NestedBookmark, parent: Option<nat>, base: nat): (items: seq<WriterItem>)
    ensures |items| == SizeOne(b)
    decreases b, 1
  {
    [WriterItem(b.title, b.page, parent)] + Outlined(b.children, Some(base), base + 1)
  }

  /** The items added for a list of bookmarks, each numbered after those of the bookmarks before it. */
  function Outlined(bookmarks: seq<NestedBookmark>, parent: Option<nat>, base: nat): (items: seq<WriterItem>)
    ensures |items| == Size(bookmarks)
    decreases bookmarks, 0
  {
    if bookmarks == [] then []
    else
      var init := bookmarks[..|bookmarks| - 1];
      Outlined(init, parent, base) + OutlinedOne(bookmarks[|bookmarks| - 1], parent, base + Size(init))
  }

  lemma OutlinedSnoc(bookmarks: seq<NestedBookmark>, k: nat, parent: Option<nat>, base: nat)
    requires k < |bookmarks|
    ensures Outlined(bookmarks[..k + 1], parent, base) ==
      Outlined(bookmarks[..k], parent, base) + OutlinedOne(bookmarks[k], parent, base + Size(bookmarks[..k]))
  {
    assert bookmarks[..k + 1][..k] == bookmarks[..k];
  }

  lemma AddStep(items: seq<WriterItem>, bookmarks: seq<NestedBookmark>, k: nat, parent: Option<nat>)
    requires k < |bookmarks|
    ensures items + Outlined(bookmarks[..k + 1], parent, |items|) ==
      (items + Outlined(bookmarks[..k], parent, |items|)) + OutlinedOne(bookmarks[k], parent, |items| + Size(bookmarks[..k]))
  {
    OutlinedSnoc(bookmarks, k, parent, |items|);
  }

  /** `add_bookmarks_to_pdf`: add each bookmark under `parent`, then its children under it. */
  method AddBookmarks(items: seq<WriterItem>, bookmarks: seq<NestedBookmark>, parent: Option<nat>) returns (result: seq<WriterItem>)
    ensures result == items + Outlined(bookmarks, parent, |items|)
    decreases bookmarks, 0
  {
    result := items;
    var k := 0;
    while k < |bookmarks|
      invariant k <= |bookmarks|
      invariant result == items + Outlined(bookmarks[..k], parent, |items|)
    {
      AddStep(items, bookmarks, k, parent);
      result := AddOne(result, bookmarks[k], parent);
      k := k + 1;
    }
    assert bookmarks[..|bookmarks|] == bookmarks;
  }

  /** One turn of the loop of `add_bookmarks_to_pdf`: the bookmark, then, if it has any, its children under it. */
  method AddOne(items: seq<WriterItem>, b: NestedBookmark, parent: Option<nat>) returns (result: seq<WriterItem>)
    ensures result == items + OutlinedOne(b, parent, |items|)
    decreases b, 1
  {
    var current := |items|;
    result := items + [WriterItem(b.title, b.page, parent)];
    if b.children != [] {
      result := AddBookmarks(result, b.children, Some(current));
    }
  }

  /** Bookmarks without children are added one after another, all under the same parent. */
  lemma {:induction false} OutlinedFlat(bookmarks: seq<NestedBookmark>, parent: Option<nat>, base: nat)
    requires forall k :: 0 <= k < |bookmarks| ==> bookmarks[k].children == []
    ensures var items := Outlined(bookmarks, parent, base);
      |items| == |bookmarks| &&
      forall k :: 0 <= k < |bookmarks| ==> items[k] == WriterItem(bookmarks[k].title, bookmarks[k].page, parent)
  {
    if bookmarks != [] {
      var n := |bookmarks| - 1;
      var init := bookmarks[..n];
      OutlinedFlat(init, parent, base);
      var last := OutlinedOne(bookmarks[n], parent, base + Size(init));
      assert Outlined(bookmarks[n].children, Some(base + Size(init)), base + Size(init) + 1) == [];
      assert last == [WriterItem(bookmarks[n].title, bookmarks[n].page, parent)];
    }
  }

  // ---------------------------------------------------------------------
  // The parts written by `split_pdf`
  // ---------------------------------------------------------------------

  /** `f"{prefix}_{i:02d}-{safe_title}.pdf"` when the prefix is non-empty, `f"{i:02d}-{safe_title}.pdf"` otherwise. */
  function PartName(prefix: string, i: nat, title: string): (name: string)
    ensures EndsWith(name, ".pdf")
  {
    var numbered := NumberedName(i, CreateValidFilename(title));
    if prefix != [] then
      var name := prefix + "_" + numbered;
      assert name[|name| - 4..] == numbered[|numbered| - 4..];
      name
    else numbered
  }

  /**
   * The outline of one part: the bookmarks collected for its page window,
   * or, when there are none, a single bookmark with the part's title at its
   * first page.
   */
  function PartOutline(outline: seq<OutlineItem>, r: BookmarkRange): seq<WriterItem> {
    var nested := NestedBookmarks(outline, r.startPage, r.endPage);
    if nested == [] then [WriterItem(r.title, 0, None)]
    else Outlined(nested, None, 0)
  }

  /** One output file: its name, the pages it receives and the bookmarks added to it. */
  datatype PartFile = PartFile(name: string, pages: seq<nat>, outline: seq<WriterItem>)

  /** The file for part number `i` (counting from 1) of range `r`. */
  function PartFileOf(outline: seq<OutlineItem>, pageCount: nat, prefix: string, i: nat, r: BookmarkRange): PartFile {
    PartFile(PartName(prefix, i, r.title), PageSpan(r.startPage, r.endPage, pageCount), PartOutline(outline, r))
  }

  /** The parts of a document: the ranges of its valid top-level bookmarks in page order. */
  function Parts(outline: seq<OutlineItem>, pageCount: nat): seq<BookmarkRange> {
    PageRanges(SortByPage(ValidBookmarks(outline)), pageCount)
  }

  /** The body of the `for i, (title, start_page, end_page)` loop: pages, nested bookmarks, fallback bookmark, name. */
  method WritePart(outline: seq<OutlineItem>, pageCount: nat, prefix: string, i: nat, r: BookmarkRange) returns (file: PartFile)
    ensures file == PartFileOf(outline, pageCount, prefix, i, r)
  {
    var pages := SelectPages(r.startPage, r.endPage, pageCount);
    var nested := GetNestedBookmarks(outline, r.startPage, r.endPage);
    var items := AddBookmarks([], nested, None);
    if nested == [] {
      items := items + [WriterItem(r.title, 0, None)];
    }
    var safeTitle := CreateValidFilename(r.title);
    var name;
    if prefix != [] {
      name := prefix + "_" + NumberedName(i, safeTitle);
    } else {
      name := NumberedName(i, safeTitle);
    }
    file := PartFile(name, pages, items);
  }

  /** The loop of `split_pdf`: part number `k + 1` is written from range `k`. */
  method WriteParts(outline: seq<OutlineItem>, pageCount: nat, prefix: string, ranges: seq<BookmarkRange>) returns (files: seq<PartFile>)
    ensures |files| == |ranges|
    ensures forall k :: 0 <= k < |ranges| ==> files[k] == PartFileOf(outline, pageCount, prefix, k + 1, ranges[k])
  {
    ghost var expected := seq(|ranges|, k requires 0 <= k < |ranges| => PartFileOf(outline, pageCount, prefix, k + 1, ranges[k]));
    files := [];
    var k := 0;
    while k < |ranges|
      invariant k <= |ranges|
      invariant files == expected[..k]
    {
      var file := WritePart(outline, pageCount, prefix, k + 1, ranges[k]);
      PrefixSnoc(expected, k, file);
      files := files + [file];
      k := k + 1;
    }
    assert files == expected;
  }

  /**
   * `split_pdf`: one file per part, numbered from 1 in page order; a
   * document without valid bookmarks yields no file.
   */
  method SplitPdf(outline: seq<OutlineItem>, pageCount: nat, prefix: string) returns (files: seq<PartFile>)
    ensures |files| == |Parts(outline, pageCount)|
    ensures forall k :: 0 <= k < |files| ==> files[k] == PartFileOf(outline, pageCount, prefix, k + 1, Parts(outline, pageCount)[k])
  {
    var bookmarks := GetBookmarksWithPages(outline, pageCount);
    files := WriteParts(outline, pageCount, prefix, bookmarks);
  }

  /** Without a prefix the part number reads back from the file name. */
  lemma PartNameNumber(i: nat, title: string)
    ensures LeadingNumber(PartName([], i, title)) == Some(i)
  {
    NumberedNameNumber(i, CreateValidFilename(title));
  }

  /** With a prefix the name is the prefix, an underscore, and the name the part gets without one. */
  lemma PartNamePrefixed(prefix: string, i: nat, title: string)
    requires prefix != []
    ensures PartName(prefix, i, title) == prefix + "_" + PartName([], i, title)
    ensures StartsWith(PartName(prefix, i, title), prefix + "_")
  {
    var name := PartName(prefix, i, title);
    assert name[..|prefix + "_"|] == prefix + "_";
  }

  /** Parts with different numbers get different file names, whatever the prefix and titles. */
  lemma PartNamesDistinct(prefix: string, i: nat, a: string, j: nat, b: string)
    requires i != j
    ensures PartName(prefix, i, a) != PartName(prefix, j, b)
  {
    var na := NumberedName(i, CreateValidFilename(a));
    var nb := NumberedName(j, CreateValidFilename(b));
    NumberedNamesDistinct(i, CreateValidFilename(a), j, CreateValidFilename(b));
    if prefix != [] {
      var head := prefix + "_";
      assert (head + na)[|head|..] == na;
      assert (head + nb)[|head|..] == nb;
    }
  }

  /**
   * Every part gets at least one bookmark. When bookmarks fall in its window,
   * they are added flat, at the top level, in outline order, each at a page
   * of the part; otherwise the single fallback bookmark carries the part's
   * title at page 0.
   */
  lemma PartOutlineShape(outline: seq<OutlineItem>, r: BookmarkRange)
    ensures var nested := NestedBookmarks(outline, r.startPage, r.endPage);
      var items := PartOutline(outline, r);
      (nested == [] ==> items == [WriterItem(r.title, 0, None)]) &&
      (nested != [] ==>
        |items| == |nested| &&
        forall k :: 0 <= k < |items| ==>
          items[k] == WriterItem(nested[k].title, nested[k].page, None) && items[k].page <= r.endPage - r.startPage)
  {
    var nested := NestedBookmarks(outline, r.startPage, r.endPage);
    WindowInPart(LeavesOf(outline), r.startPage, r.endPage);
    OutlinedFlat(nested, None, 0);
  }

  // ---------------------------------------------------------------------
  // The path typed at the prompt
  // ---------------------------------------------------------------------

  predicate QuotedWith(s: string, q: char) {
    |s| >= 1 && s[0] == q && s[|s| - 1] == q
  }

  /**
   * The path `main` passes on: the input stripped of whitespace, then of one
   * pair of matching double or single quotes around it.
   */
  function UnquotePath(input: string): string {
    var p := Strip(input);
    if QuotedWith(p, '"') || QuotedWith(p, '\'') then
      if |p| >= 2 then p[1..|p| - 1] else []
    else p
  }

  /** A path typed inside matching quotes, with no space around it, comes back without them. */
  lemma UnquoteQuoted(path: string, q: char)
    requires q == '"' || q == '\''
    ensures UnquotePath([q] + path + [q]) == path
  {
    var s := [q] + path + [q];
    StripTrimmed(s);
    assert s[1..|s| - 1] == path;
  }

  /** A path that is not wrapped in matching quotes is only stripped of whitespace. */
  lemma UnquoteUnquoted(input: string)
    requires !QuotedWith(Strip(input), '"') && !QuotedWith(Strip(input), '\'')
    ensures UnquotePath(input) == Strip(input)
  {
  }
}
