/**
 * What the two PDF splitters share: the shape of an outline entry as the
 * PDF reader delivers it, the file-name sanitiser, the selection of the
 * pages a writer receives for an inclusive page range, and the numbered
 * output file names `NN-title.pdf`.
 */
module Outline {
  import opened Wrappers
  import opened Text

  /**
   * One entry of a PDF outline. A `Destination` is a dictionary-like
   * bookmark: `title` is absent when the object has no `title` attribute,
   * `hasPageKey` says whether its text form mentions `/Page`, and `page` is
   * the result of the reader's page lookup (`None` when the lookup raises).
   * `Nested` is a sub-list of the outline; `Other` is anything else.
   */
  datatype OutlineItem =
    | Destination(title: Option<string>, hasPageKey: bool, page: Option<nat>)
    | Nested(items: seq<OutlineItem>)
    | Other

  /** Both splitters treat an entry as a page bookmark only when it is a dictionary whose text mentions `/Page`. */
  predicate IsPageBookmark(item: OutlineItem) {
    item.Destination? && item.hasPageKey
  }

  // ---------------------------------------------------------------------
  // File-name sanitiser
  // ---------------------------------------------------------------------

  /** Characters that Windows and macOS refuse in file names. */
  const InvalidChars: string := "<>:\"/\\|?*"

  function Sanitize(c: char): char {
    if c in InvalidChars then '_' else c
  }

  /** Every invalid character replaced by an underscore, all other characters kept. */
  function ReplaceInvalid(title: string): (r: string)
    ensures |r| == |title|
    ensures forall i :: 0 <= i < |title| ==> r[i] == Sanitize(title[i])
  {
    seq(|title|, i requires 0 <= i < |title| => Sanitize(title[i]))
  }

  lemma SanitizeKeepsSpace(c: char)
    ensures IsSpace(Sanitize(c)) <==> IsSpace(c)
  {
  }

  /** Replacing invalid characters neither creates nor removes whitespace. */
  lemma ReplaceInvalidSpace(title: string, lo: nat, hi: nat)
    requires lo <= hi <= |title|
    ensures AllSpace(ReplaceInvalid(title)[lo..hi]) <==> AllSpace(title[lo..hi])
  {
    var r := ReplaceInvalid(title);
    forall k | lo <= k < hi
      ensures IsSpace(r[k]) <==> IsSpace(title[k])
    {
      SanitizeKeepsSpace(title[k]);
    }
    assert forall k :: 0 <= k < hi - lo ==> r[lo..hi][k] == r[lo + k] && title[lo..hi][k] == title[lo + k];
  }

  /**
   * `create_valid_filename`: replace the invalid characters, then strip.
   * The name carries no invalid character, has no whitespace at its ends,
   * and is empty exactly when the title is blank.
   */
  function CreateValidFilename(title: string): (name: string)
    ensures forall k :: 0 <= k < |name| ==> name[k] !in InvalidChars
    ensures name != [] ==> !IsSpace(name[0]) && !IsSpace(name[|name| - 1])
    ensures name == [] <==> AllSpace(title)
  {
    var r := ReplaceInvalid(title);
    ReplaceInvalidSpace(title, 0, |title|);
    assert r[0..|title|] == r && title[0..|title|] == title;
    Strip(r)
  }

  /**
   * `name` is `title[i..]` cut to the length of `name`, each character
   * sanitised, with only whitespace before and after it in `title`.
   */
  predicate SanitizedWindow(title: string, name: string, i: nat) {
    i + |name| <= |title| &&
    (forall k :: 0 <= k < |name| ==> name[k] == Sanitize(title[i + k])) &&
    AllSpace(title[..i]) && AllSpace(title[i + |name|..])
  }

  lemma ReplaceInvalidWindow(title: string, name: string, i: nat)
    requires i + |name| <= |title|
    requires name == ReplaceInvalid(title)[i..i + |name|]
    requires AllSpace(ReplaceInvalid(title)[..i]) && AllSpace(ReplaceInvalid(title)[i + |name|..])
    ensures SanitizedWindow(title, name, i)
  {
    var r := ReplaceInvalid(title);
    ReplaceInvalidSpace(title, 0, i);
    ReplaceInvalidSpace(title, i + |name|, |title|);
    assert r[0..i] == r[..i] && title[0..i] == title[..i];
    assert r[i + |name|..|title|] == r[i + |name|..] && title[i + |name|..|title|] == title[i + |name|..];
  }

  /**
   * The name is the title with only whitespace cut off at both ends and each
   * remaining character sanitised.
   */
  lemma CreateValidFilenameIsWindow(title: string)
    ensures exists i :: SanitizedWindow(title, CreateValidFilename(title), i)
  {
    var r := ReplaceInvalid(title);
    var i := StripOffset(r);
    ReplaceInvalidWindow(title, Strip(r), i);
    assert CreateValidFilename(title) == Strip(r);
  }

  /** Sanitising a name a second time changes nothing. */
  lemma CreateValidFilenameIdempotent(title: string)
    ensures CreateValidFilename(CreateValidFilename(title)) == CreateValidFilename(title)
  {
    var name := CreateValidFilename(title);
    assert ReplaceInvalid(name) == name;
    StripIdempotent(ReplaceInvalid(title));
  }

  /** A title that is already a valid, stripped file name is kept as it is. */
  lemma CreateValidFilenameKeepsValid(title: string)
    requires forall k :: 0 <= k < |title| ==> title[k] !in InvalidChars
    requires title != [] ==> !IsSpace(title[0]) && !IsSpace(title[|title| - 1])
    ensures CreateValidFilename(title) == title
  {
    assert ReplaceInvalid(title) == title;
    if title != [] {
      assert LeadingSpace(title) == 0;
      assert TrailingSpace(title) == 0;
    }
  }

  // ---------------------------------------------------------------------
  // Page selection
  // ---------------------------------------------------------------------

  /**
   * The pages a writer receives for `range(start, end + 1)` when the loop
   * keeps only the pages below `pageCount`: every page of the inclusive
   * range that exists, in ascending order.
   */
  function PageSpan(start: nat, end: int, pageCount: nat): (pages: seq<nat>)
    ensures forall p: nat :: p in pages <==> start <= p <= end && p < pageCount
    ensures forall i :: 0 <= i < |pages| ==> pages[i] == start + i
  {
    var stop := if end + 1 < pageCount then end + 1 else pageCount;
    if stop <= start then []
    else
      var pages := seq(stop - start, i requires 0 <= i < stop - start => start + i);
      forall p: nat | start <= p < stop
        ensures p in pages
      {
        assert pages[p - start] == p;
      }
      pages
  }

  lemma PageSpanStep(start: nat, p: nat, pageCount: nat)
    requires start <= p
    ensures PageSpan(start, p, pageCount) == PageSpan(start, p - 1, pageCount) + (if p < pageCount then [p] else [])
  {
  }

  /**
   * The page loop of both splitters: walk `start..end` and add each page that
   * exists in the document.
   */
  method SelectPages(start: nat, end: int, pageCount: nat) returns (pages: seq<nat>)
    ensures pages == PageSpan(start, end, pageCount)
  {
    pages := [];
    var p := start;
    while p < end + 1
      invariant start <= p
      invariant p == start || p <= end + 1
      invariant pages == PageSpan(start, p - 1, pageCount)
    {
      PageSpanStep(start, p, pageCount);
      if p < pageCount {
        pages := pages + [p];
      }
      p := p + 1;
    }
  }

  /** Two ranges that meet (`end + 1 == next start`) hand out disjoint pages whose union is the joined range. */
  lemma PageSpanAdjacent(start: nat, mid: nat, end: int, pageCount: nat)
    requires start <= mid <= end + 1
    ensures PageSpan(start, mid - 1, pageCount) + PageSpan(mid, end, pageCount) == PageSpan(start, end, pageCount)
  {
    var a := PageSpan(start, mid - 1, pageCount);
    var b := PageSpan(mid, end, pageCount);
    var c := PageSpan(start, end, pageCount);
    assert |a + b| == |c|;
    forall i | 0 <= i < |c|
      ensures (a + b)[i] == c[i]
    {
      if i >= |a| {
        assert (a + b)[i] == b[i - |a|];
      }
    }
  }

  /** An inclusive page range; the end may lie before the start, and `-1` when the document is empty. */
  datatype PageRange = PageRange(startPage: nat, endPage: int)

  /** The pages each range hands out, in range order. */
  function Spans(ranges: seq<PageRange>, pageCount: nat): (spans: seq<seq<nat>>)
    ensures |spans| == |ranges|
    ensures forall k :: 0 <= k < |ranges| ==> spans[k] == PageSpan(ranges[k].startPage, ranges[k].endPage, pageCount)
  {
    seq(|ranges|, k requires 0 <= k < |ranges| => PageSpan(ranges[k].startPage, ranges[k].endPage, pageCount))
  }

  /** Each range starts where the previous one ends, and no start lies before the previous start. */
  predicate Consecutive(ranges: seq<PageRange>) {
    forall k :: 0 <= k < |ranges| - 1 ==>
      ranges[k].startPage <= ranges[k + 1].startPage == ranges[k].endPage + 1
  }

  lemma SpansSnoc(ranges: seq<PageRange>, pageCount: nat)
    requires ranges != []
    ensures var n := |ranges|;
      Flatten(Spans(ranges, pageCount)) ==
        Flatten(Spans(ranges[..n - 1], pageCount)) + PageSpan(ranges[n - 1].startPage, ranges[n - 1].endPage, pageCount)
  {
    var n := |ranges|;
    var spans := Spans(ranges, pageCount);
    assert spans == Spans(ranges[..n - 1], pageCount) + [spans[n - 1]];
    FlattenAppend(Spans(ranges[..n - 1], pageCount), spans[n - 1]);
  }

  /**
   * Consecutive ranges hand out every existing page from the first start to
   * the last end exactly once, in ascending order.
   */
  lemma {:induction false} SpansJoin(ranges: seq<PageRange>, pageCount: nat)
    requires ranges != [] && Consecutive(ranges)
    requires ranges[|ranges| - 1].startPage <= ranges[|ranges| - 1].endPage + 1
    ensures ranges[0].startPage <= ranges[|ranges| - 1].startPage
    ensures Flatten(Spans(ranges, pageCount)) ==
      PageSpan(ranges[0].startPage, ranges[|ranges| - 1].endPage, pageCount)
  {
    var n := |ranges|;
    var m := n - 1;
    var prefix := ranges[..m];
    var first := ranges[0];
    var last := ranges[m];
    var lastSpan := PageSpan(last.startPage, last.endPage, pageCount);
    SpansSnoc(ranges, pageCount);
    assert Flatten(Spans(ranges, pageCount)) == Flatten(Spans(prefix, pageCount)) + lastSpan;
    if n == 1 {
      assert Spans(prefix, pageCount) == [];
    } else {
      var before := ranges[m - 1];
      assert Consecutive(prefix) by {
        forall k | 0 <= k < |prefix| - 1
          ensures prefix[k].startPage <= prefix[k + 1].startPage == prefix[k].endPage + 1
        {
          assert prefix[k] == ranges[k] && prefix[k + 1] == ranges[k + 1];
        }
      }
      assert prefix[|prefix| - 1] == before && prefix[0] == first;
      assert before.startPage <= last.startPage == before.endPage + 1;
      SpansJoin(prefix, pageCount);
      assert Flatten(Spans(prefix, pageCount)) == PageSpan(first.startPage, before.endPage, pageCount);
      PageSpanAdjacent(first.startPage, last.startPage, last.endPage, pageCount);
    }
  }

  // ---------------------------------------------------------------------
  // Numbered output file names
  // ---------------------------------------------------------------------

  /** `f"{i:02d}-{title}.pdf"` */
  function NumberedName(i: nat, title: string): (name: string)
    ensures EndsWith(name, ".pdf")
    ensures StartsWith(name, ZeroPad2(i) + "-")
  {
    var name := ZeroPad2(i) + "-" + title + ".pdf";
    assert name[..|ZeroPad2(i) + "-"|] == ZeroPad2(i) + "-";
    assert name[|name| - 4..] == ".pdf";
    name
  }

  /** The number a file name starts with: the text before its first '-', read as a decimal. */
  function LeadingNumber(name: string): Option<nat> {
    var field := Split(name, '-')[0];
    if IsDigits(field) then Some(DecimalValue(field)) else None
  }

  /** The second '-'-separated field of a file name, read as a decimal. */
  function SecondNumber(name: string): Option<nat> {
    var fields := Split(name, '-');
    if |fields| >= 2 && IsDigits(fields[1]) then Some(DecimalValue(fields[1])) else None
  }

  lemma DigitsHaveNoDash(s: string)
    requires IsDigits(s)
    ensures '-' !in s
  {
  }

  /** The fields of `digits + "-" + rest` are `digits` followed by the fields of `rest`. */
  lemma SplitAfterNumber(digits: string, rest: string)
    requires IsDigits(digits)
    ensures Split(digits + "-" + rest, '-') == [digits] + Split(rest, '-')
  {
    DigitsHaveNoDash(digits);
    assert digits + "-" + rest == digits + ("-" + rest);
    SplitPiece(digits, "-" + rest, '-');
    SplitSeparated(rest, '-');
    assert digits + [] == digits;
  }

  /** The chapter number reads back from a numbered name, whatever the title. */
  lemma NumberedNameNumber(i: nat, title: string)
    ensures LeadingNumber(NumberedName(i, title)) == Some(i)
  {
    SplitAfterNumber(ZeroPad2(i), title + ".pdf");
    assert NumberedName(i, title) == ZeroPad2(i) + "-" + (title + ".pdf");
  }

  /** A section name `NN-MM-title.pdf` reads back both its chapter and its section number. */
  lemma SectionNameNumbers(i: nat, j: nat, title: string)
    ensures LeadingNumber(NumberedName(i, ZeroPad2(j) + "-" + title)) == Some(i)
    ensures SecondNumber(NumberedName(i, ZeroPad2(j) + "-" + title)) == Some(j)
  {
    var rest := ZeroPad2(j) + "-" + title;
    var name := NumberedName(i, rest);
    assert LeadingNumber(name) == Some(i) by {
      NumberedNameNumber(i, rest);
    }
    var fields := Split(name, '-');
    assert |fields| >= 2 && fields[1] == ZeroPad2(j) by {
      var tail := title + ".pdf";
      assert name == ZeroPad2(i) + "-" + (ZeroPad2(j) + "-" + tail);
      SplitAfterNumber(ZeroPad2(i), ZeroPad2(j) + "-" + tail);
      SplitAfterNumber(ZeroPad2(j), tail);
    }
  }

  /** Files numbered differently never get the same name, so no output overwrites another. */
  lemma NumberedNamesDistinct(i: nat, a: string, j: nat, b: string)
    requires i != j
    ensures NumberedName(i, a) != NumberedName(j, b)
  {
    NumberedNameNumber(i, a);
    NumberedNameNumber(j, b);
  }
}
