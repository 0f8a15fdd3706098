/**
 * The subtitle converters: an SRT or WebVTT file, read as its lines, is
 * reduced to the text of its cues joined by single spaces, and the files of
 * one chapter folder are assembled into one Markdown document.
 */
module Subtitles {
  import opened Wrappers
  import opened Text
  import opened Sorting
  import opened NaturalSort

  // ---------------------------------------------------------------------
  // Shared pieces of both scanners
  // ---------------------------------------------------------------------

  /** `'-->' in line`: the line is a timing line. */
  predicate IsTiming(line: string) {
    Contains(line, "-->")
  }

  /** `line.strip()` is non-empty. */
  predicate NotBlank(line: string) {
    Strip(line) != []
  }

  /** The stripped lines of a chunk, in order. */
  function Stripped(lines: seq<string>): (r: seq<string>)
    ensures |r| == |lines|
    ensures forall k :: 0 <= k < |lines| ==> r[k] == Strip(lines[k])
  {
    seq(|lines|, k requires 0 <= k < |lines| => Strip(lines[k]))
  }

  /** One more line extends the stripped window by its stripped line. */
  lemma StrippedSnoc(lines: seq<string>, start: nat, i: nat, next: nat)
    requires start <= i < |lines| && next == i + 1
    ensures Stripped(lines[start..next]) == Stripped(lines[start..i]) + [Strip(lines[i])]
  {
    assert lines[start..next] == lines[start..i] + [lines[i]];
  }

  /** What a chunk of cue lines contributes: nothing when empty, else its stripped lines joined by single spaces. */
  function ChunkText(chunk: seq<string>): seq<string> {
    if chunk == [] then [] else [Join(" ", Stripped(chunk))]
  }

  lemma CollectedChunk(lines: seq<string>, start: nat, end: nat, chunk: seq<string>)
    requires start <= end <= |lines|
    requires chunk == Stripped(lines[start..end])
    ensures ChunkText(lines[start..end]) == if chunk == [] then [] else [Join(" ", chunk)]
  {
  }

  /** Joining parts whose first one is non-empty gives a non-empty string. */
  lemma JoinNonEmpty(parts: seq<string>)
    requires parts != [] && parts[0] != []
    ensures Join(" ", parts) != []
  {
  }

  /** A chunk of non-blank lines contributes a non-empty text. */
  lemma ChunkTextNonEmpty(chunk: seq<string>)
    requires forall k :: 0 <= k < |chunk| ==> NotBlank(chunk[k])
    ensures forall k :: 0 <= k < |ChunkText(chunk)| ==> ChunkText(chunk)[k] != []
  {
    if chunk != [] {
      JoinNonEmpty(Stripped(chunk));
    }
  }

  /** A cue as a subtitle file carries it: its timing line and its text lines. */
  datatype Cue = Cue(timing: string, text: seq<string>)

  /** The texts the cues contribute, in order; a cue without text contributes nothing. */
  function CueTexts(cues: seq<Cue>): seq<string> {
    if cues == [] then [] else ChunkText(cues[0].text) + CueTexts(cues[1..])
  }

  // ---------------------------------------------------------------------
  // SRT
  // ---------------------------------------------------------------------

  /** `lines[i].strip().isdigit()`: a cue number. */
  predicate IsIndexLine(line: string) {
    IsDigits(Strip(line))
  }

  /** The first position from `i` on that holds a blank line, or the end of the lines. */
  function TextEnd(lines: seq<string>, i: nat): (e: nat)
    requires i <= |lines|
    ensures i <= e <= |lines|
    decreases |lines| - i
  {
    if i == |lines| || !NotBlank(lines[i]) then i else TextEnd(lines, i + 1)
  }

  /** The text of an SRT cue is non-blank, and it stops at a blank line. */
  lemma {:induction false} TextEndBounds(lines: seq<string>, i: nat)
    requires i <= |lines|
    ensures forall k :: i <= k < TextEnd(lines, i) ==> NotBlank(lines[k])
    ensures TextEnd(lines, i) < |lines| ==> !NotBlank(lines[TextEnd(lines, i)])
    decreases |lines| - i
  {
    if i < |lines| && NotBlank(lines[i]) {
      TextEndBounds(lines, i + 1);
    }
  }

  lemma TextEndStep(lines: seq<string>, i: nat, next: nat)
    requires i < |lines| && NotBlank(lines[i]) && next == i + 1
    ensures TextEnd(lines, i) == TextEnd(lines, next)
  {
  }

  /** Position `i` holds a number line directly followed by a timing line. */
  predicate OpensSrtCue(lines: seq<string>, i: nat) {
    i + 1 < |lines| && IsIndexLine(lines[i]) && IsTiming(lines[i + 1])
  }

  /**
   * The cue texts the scan collects from position `i` on: a number line
   * directly followed by a timing line opens a cue whose text is every
   * following line up to the first blank one; any other line is passed over
   * on its own.
   */
  function SrtBlocks(lines: seq<string>, i: nat): seq<string>
    requires i <= |lines|
    decreases |lines| - i
  {
    if i == |lines| then []
    else if OpensSrtCue(lines, i) then
      var e := TextEnd(lines, i + 2);
      ChunkText(lines[i + 2..e]) + SrtBlocks(lines, e)
    else SrtBlocks(lines, i + 1)
  }

  /** `process_srt_file` after reading: the cue texts joined by single spaces. */
  function SrtText(content: string): string {
    var lines := Split(content, '\n');
    Join(" ", SrtBlocks(lines, 0))
  }

  /** The text lines of one cue: stripped and kept until the first blank line. */
  method CollectChunk(lines: seq<string>, start: nat) returns (chunk: seq<string>, i: nat)
    requires start <= |lines|
    ensures i == TextEnd(lines, start)
    ensures chunk == Stripped(lines[start..i])
  {
    chunk := [];
    i := start;
    ghost var end := TextEnd(lines, start);
    while i < |lines| && NotBlank(lines[i])
      invariant start <= i <= |lines|
      invariant TextEnd(lines, i) == end
      invariant chunk == Stripped(lines[start..i])
    {
      var next := i + 1;
      StrippedSnoc(lines, start, i, next);
      chunk := chunk + [Strip(lines[i])];
      TextEndStep(lines, i, next);
      i := next;
    }
  }

  /** At a cue opening the scan collects the cue's text and resumes after it. */
  lemma SrtBlocksOpen(lines: seq<string>, j: nat, e: nat)
    requires j < |lines| && OpensSrtCue(lines, j) && e == TextEnd(lines, j + 2)
    ensures SrtBlocks(lines, j) == ChunkText(lines[j + 2..e]) + SrtBlocks(lines, e)
  {
  }

  /** Anywhere else, a number line not followed by a timing line included, the scan moves on by one line. */
  lemma SrtBlocksPass(lines: seq<string>, j: nat, next: nat)
    requires j < |lines| && !OpensSrtCue(lines, j) && next == j + 1
    ensures SrtBlocks(lines, j) == SrtBlocks(lines, next)
  {
  }

  /**
   * One turn of the loop of `process_srt_file` at cursor `i`: a number line
   * followed by a timing line yields the cue's text (if it has any) and
   * moves past it; a number line alone moves one line; any other line too.
   */
  method SrtStep(lines: seq<string>, i: nat) returns (piece: seq<string>, next: nat)
    requires i < |lines|
    ensures i < next <= |lines|
    ensures SrtBlocks(lines, i) == piece + SrtBlocks(lines, next)
  {
    piece := [];
    next := i;
    if IsDigits(Strip(lines[next])) {
      next := next + 1;
      if next < |lines| && Contains(lines[next], "-->") {
        next := next + 1;
        var chunk;
        chunk, next := CollectChunk(lines, next);
        SrtBlocksOpen(lines, i, next);
        CollectedChunk(lines, i + 2, next, chunk);
        if chunk != [] {
          piece := [Join(" ", chunk)];
        }
      } else {
        SrtBlocksPass(lines, i, next);
      }
    } else {
      next := next + 1;
      SrtBlocksPass(lines, i, next);
    }
  }

  /** `process_srt_file`: the cursor loop over the lines; the cue texts joined by single spaces. */
  method ProcessSrt(lines: seq<string>) returns (text: string)
    ensures text == Join(" ", SrtBlocks(lines, 0))
  {
    var processed: seq<string> := [];
    var i := 0;
    while i < |lines|
      invariant i <= |lines|
      invariant processed + SrtBlocks(lines, i) == SrtBlocks(lines, 0)
    {
      var piece, next := SrtStep(lines, i);
      AppendAssoc(processed, piece, SrtBlocks(lines, next));
      processed := processed + piece;
      i := next;
    }
    assert SrtBlocks(lines, i) == [];
    assert processed + [] == processed;
    text := Join(" ", processed);
  }

  /** Every cue text the scan keeps is non-empty, so the joined result never holds doubled spaces from empty cues. */
  lemma {:induction false} SrtBlocksNonEmpty(lines: seq<string>, i: nat)
    requires i <= |lines|
    ensures forall k :: 0 <= k < |SrtBlocks(lines, i)| ==> SrtBlocks(lines, i)[k] != []
    decreases |lines| - i
  {
    if i < |lines| {
      if OpensSrtCue(lines, i) {
        var e := TextEnd(lines, i + 2);
        TextEndBounds(lines, i + 2);
        ChunkTextNonEmpty(lines[i + 2..e]);
        SrtBlocksNonEmpty(lines, e);
      } else {
        SrtBlocksNonEmpty(lines, i + 1);
      }
    }
  }

  /** The lines an SRT writer produces for cue number `number`: number, timing, text, blank line. */
  function SrtCueLines(number: nat, cue: Cue): seq<string> {
    [NatToDecimal(number), cue.timing] + cue.text + [""]
  }

  /** A subtitle file holding `cues`, numbered from `first`. */
  function RenderSrt(cues: seq<Cue>, first: nat): seq<string> {
    if cues == [] then [] else SrtCueLines(first, cues[0]) + RenderSrt(cues[1..], first + 1)
  }

  /** A cue the scanner can read back: a timing line, and text lines that are none of them blank. */
  predicate WellFormedCue(cue: Cue) {
    IsTiming(cue.timing) && forall k :: 0 <= k < |cue.text| ==> NotBlank(cue.text[k])
  }

  lemma DecimalIsIndex(n: nat)
    ensures IsIndexLine(NatToDecimal(n))
  {
    StripTrimmed(NatToDecimal(n));
  }

  /** The text of a cue runs up to the first blank line after `start`. */
  lemma {:induction false} TextEndAt(lines: seq<string>, start: nat, end: nat)
    requires start <= end < |lines|
    requires forall k :: start <= k < end ==> NotBlank(lines[k])
    requires !NotBlank(lines[end])
    ensures TextEnd(lines, start) == end
    decreases end - start
  {
    if start < end {
      var next := start + 1;
      TextEndStep(lines, start, next);
      TextEndAt(lines, next, end);
    }
  }

  /** Where the lines from `p` on start with a rendered cue, each of its lines is at its place. */
  lemma SrtCueLayout(lines: seq<string>, p: nat, number: nat, cue: Cue, rest: seq<string>)
    requires p <= |lines| && lines[p..] == SrtCueLines(number, cue) + rest
    ensures p + 3 + |cue.text| <= |lines|
    ensures lines[p] == NatToDecimal(number) && lines[p + 1] == cue.timing
    ensures lines[p + 2..p + 2 + |cue.text|] == cue.text
    ensures lines[p + 2 + |cue.text|] == ""
    ensures lines[p + 3 + |cue.text|..] == rest
  {
    var m := |cue.text|;
    var tail := lines[p..];
    assert tail == [NatToDecimal(number), cue.timing] + cue.text + ([""] + rest);
    assert lines[p] == tail[0];
    assert lines[p + 1] == tail[1];
    assert lines[p + 2..p + 2 + m] == tail[2..2 + m];
    assert lines[p + 2 + m] == tail[2 + m];
    assert lines[p + 3 + m..] == tail[3 + m..];
  }

  /** Where the lines from `p` on start with a rendered cue, the scan yields its text and moves to the line after its blank line. */
  lemma SrtCueAt(lines: seq<string>, p: nat, number: nat, cue: Cue, rest: seq<string>, q: nat)
    requires WellFormedCue(cue)
    requires p <= |lines| && lines[p..] == SrtCueLines(number, cue) + rest
    requires q == p + 3 + |cue.text|
    ensures q <= |lines| && lines[q..] == rest
    ensures SrtBlocks(lines, p) == ChunkText(cue.text) + SrtBlocks(lines, q)
  {
    var m := |cue.text|;
    var e := p + 2 + m;
    SrtCueLayout(lines, p, number, cue, rest);
    var text := lines[p + 2..e];
    assert text == cue.text;
    DecimalIsIndex(number);
    assert OpensSrtCue(lines, p);
    forall k | p + 2 <= k < e
      ensures NotBlank(lines[k])
    {
      assert lines[k] == text[k - p - 2];
    }
    TextEndAt(lines, p + 2, e);
    SrtBlocksOpen(lines, p, e);
    assert !OpensSrtCue(lines, e);
    SrtBlocksPass(lines, e, q);
  }

  /** Where the lines from `p` on are a rendered cue list, the scan from `p` recovers the cues' texts. */
  lemma {:induction false} SrtRoundTripAt(lines: seq<string>, p: nat, cues: seq<Cue>, first: nat)
    requires forall k :: 0 <= k < |cues| ==> WellFormedCue(cues[k])
    requires p <= |lines| && lines[p..] == RenderSrt(cues, first)
    ensures SrtBlocks(lines, p) == CueTexts(cues)
    decreases |cues|
  {
    if cues == [] {
      assert |lines[p..]| == 0;
      assert p == |lines|;
      assert SrtBlocks(lines, p) == [];
    } else {
      var q := p + 3 + |cues[0].text|;
      SrtCueAt(lines, p, first, cues[0], RenderSrt(cues[1..], first + 1), q);
      assert forall k :: 0 <= k < |cues[1..]| ==> cues[1..][k] == cues[k + 1];
      SrtRoundTripAt(lines, q, cues[1..], first + 1);
      assert CueTexts(cues) == ChunkText(cues[0].text) + CueTexts(cues[1..]);
    }
  }

  /** The scan of a well-formed SRT file recovers the text of each of its cues, in order. */
  lemma SrtRoundTrip(cues: seq<Cue>, first: nat)
    requires forall k :: 0 <= k < |cues| ==> WellFormedCue(cues[k])
    ensures SrtBlocks(RenderSrt(cues, first), 0) == CueTexts(cues)
  {
    var lines := RenderSrt(cues, first);
    assert lines[0..] == lines;
    SrtRoundTripAt(lines, 0, cues, first);
  }

  /**
   * Written out as text, a well-formed SRT file whose lines hold no line
   * break converts to exactly the texts of its cues joined by single spaces.
   */
  lemma SrtFileRoundTrip(cues: seq<Cue>)
    requires forall k :: 0 <= k < |cues| ==> WellFormedCue(cues[k])
    requires forall k :: 0 <= k < |RenderSrt(cues, 1)| ==> '\n' !in RenderSrt(cues, 1)[k]
    ensures SrtText(Join("\n", RenderSrt(cues, 1))) == Join(" ", CueTexts(cues))
  {
    var lines := RenderSrt(cues, 1);
    SrtRoundTrip(cues, 1);
    if lines == [] {
      assert Split([], '\n') == [[]];
      assert !OpensSrtCue([[]], 0);
    } else {
      SplitJoin(lines, '\n');
    }
  }

  // ---------------------------------------------------------------------
  // WebVTT
  // ---------------------------------------------------------------------

  /** `line.strip() == 'WEBVTT' or line.startswith('WEBVTT ')`: the file's signature line. */
  predicate IsHeader(line: string) {
    Strip(line) == "WEBVTT" || StartsWith(line, "WEBVTT ")
  }

  /** The first signature line at or after `i`, if any. */
  function FirstHeader(lines: seq<string>, i: nat): (h: Option<nat>)
    requires i <= |lines|
    ensures h.Some? ==> i <= h.value < |lines| && IsHeader(lines[h.value])
    ensures forall k :: i <= k < |lines| && (h.None? || k < h.value) ==> !IsHeader(lines[k])
    decreases |lines| - i
  {
    if i == |lines| then None
    else if IsHeader(lines[i]) then Some(i)
    else FirstHeader(lines, i + 1)
  }

  /**
   * A line the scan passes over after the signature line: a blank line, or
   * one holding a `:`. As written the rule also passes over a timing line,
   * which holds `:` in every timestamp; the corrected rule (`corrected`)
   * stops at a timing line.
   */
  predicate SkipsAfterHeader(line: string, corrected: bool) {
    Strip(line) == [] || (':' in line && !(corrected && IsTiming(line)))
  }

  /** The first position from `i` on that the header skip stops at. */
  function MetaEnd(lines: seq<string>, i: nat, corrected: bool): (e: nat)
    requires i <= |lines|
    ensures i <= e <= |lines|
    ensures forall k :: i <= k < e ==> SkipsAfterHeader(lines[k], corrected)
    ensures e < |lines| ==> !SkipsAfterHeader(lines[e], corrected)
    decreases |lines| - i
  {
    if i == |lines| || !SkipsAfterHeader(lines[i], corrected) then i else MetaEnd(lines, i + 1, corrected)
  }

  lemma MetaEndStep(lines: seq<string>, i: nat, corrected: bool, next: nat)
    requires i < |lines| && SkipsAfterHeader(lines[i], corrected) && next == i + 1
    ensures MetaEnd(lines, i, corrected) == MetaEnd(lines, next, corrected)
  {
  }

  /** Where the cue scan begins: after the signature line and what follows it, or at 0 without one. */
  function VttStart(lines: seq<string>, corrected: bool): (s: nat)
    ensures s <= |lines|
  {
    match FirstHeader(lines, 0)
    case None => 0
    case Some(h) => MetaEnd(lines, h + 1, corrected)
  }

  /** The first position from `i` on that holds a blank line or a timing line, or the end of the lines. */
  function CueEnd(lines: seq<string>, i: nat): (e: nat)
    requires i <= |lines|
    ensures i <= e <= |lines|
    decreases |lines| - i
  {
    if i == |lines| || !NotBlank(lines[i]) || IsTiming(lines[i]) then i else CueEnd(lines, i + 1)
  }

  /** The text of a cue is non-blank and timing-free, and it stops at a blank or timing line. */
  lemma {:induction false} CueEndBounds(lines: seq<string>, i: nat)
    requires i <= |lines|
    ensures forall k :: i <= k < CueEnd(lines, i) ==> NotBlank(lines[k]) && !IsTiming(lines[k])
    ensures CueEnd(lines, i) < |lines| ==> !NotBlank(lines[CueEnd(lines, i)]) || IsTiming(lines[CueEnd(lines, i)])
    decreases |lines| - i
  {
    if i < |lines| && NotBlank(lines[i]) && !IsTiming(lines[i]) {
      CueEndBounds(lines, i + 1);
    }
  }

  lemma CueEndStep(lines: seq<string>, i: nat, next: nat)
    requires i < |lines| && NotBlank(lines[i]) && !IsTiming(lines[i]) && next == i + 1
    ensures CueEnd(lines, i) == CueEnd(lines, next)
  {
  }

  /**
   * The cue texts the scan collects from position `i` on: a timing line
   * opens a cue whose text is every following line up to the first blank
   * or timing line; any other line (a cue identifier, a note) is passed
   * over on its own.
   */
  function VttBlocks(lines: seq<string>, i: nat): seq<string>
    requires i <= |lines|
    decreases |lines| - i
  {
    if i == |lines| then []
    else if IsTiming(lines[i]) then
      var e := CueEnd(lines, i + 1);
      ChunkText(lines[i + 1..e]) + VttBlocks(lines, e)
    else VttBlocks(lines, i + 1)
  }

  /** `process_vtt_file` after reading, with the header skip as written or corrected. */
  function VttText(content: string, corrected: bool): string {
    var lines := Split(content, '\n');
    Join(" ", VttBlocks(lines, VttStart(lines, corrected)))
  }

  lemma VttBlocksOpen(lines: seq<string>, j: nat, e: nat)
    requires j < |lines| && IsTiming(lines[j]) && e == CueEnd(lines, j + 1)
    ensures VttBlocks(lines, j) == ChunkText(lines[j + 1..e]) + VttBlocks(lines, e)
  {
  }

  lemma VttBlocksPass(lines: seq<string>, j: nat, next: nat)
    requires j < |lines| && !IsTiming(lines[j]) && next == j + 1
    ensures VttBlocks(lines, j) == VttBlocks(lines, next)
  {
  }

  /** The skip after the signature line: the inner `while` of the header search. */
  method SkipMetadata(lines: seq<string>, from: nat, corrected: bool) returns (i: nat)
    requires from <= |lines|
    ensures i == MetaEnd(lines, from, corrected)
  {
    i := from;
    ghost var end := MetaEnd(lines, from, corrected);
    while i < |lines| && (Strip(lines[i]) == [] || (':' in lines[i] && !(corrected && Contains(lines[i], "-->"))))
      invariant from <= i <= |lines|
      invariant MetaEnd(lines, i, corrected) == end
    {
      var next := i + 1;
      MetaEndStep(lines, i, corrected, next);
      i := next;
    }
  }

  /** The header search: the first signature line decides where the cues begin; without one they begin at 0. */
  method FindStart(lines: seq<string>, corrected: bool) returns (start: nat)
    ensures start == VttStart(lines, corrected)
  {
    start := 0;
    var i := 0;
    while i < |lines|
      invariant i <= |lines|
      invariant FirstHeader(lines, 0) == FirstHeader(lines, i)
    {
      if Strip(lines[i]) == "WEBVTT" || StartsWith(lines[i], "WEBVTT ") {
        start := SkipMetadata(lines, i + 1, corrected);
        return;
      }
      i := i + 1;
    }
  }

  /** The text lines of one cue: stripped and kept until a blank or timing line. */
  method CollectCue(lines: seq<string>, start: nat) returns (chunk: seq<string>, i: nat)
    requires start <= |lines|
    ensures i == CueEnd(lines, start)
    ensures chunk == Stripped(lines[start..i])
  {
    chunk := [];
    i := start;
    ghost var end := CueEnd(lines, start);
    while i < |lines| && NotBlank(lines[i]) && !IsTiming(lines[i])
      invariant start <= i <= |lines|
      invariant CueEnd(lines, i) == end
      invariant chunk == Stripped(lines[start..i])
    {
      var next := i + 1;
      StrippedSnoc(lines, start, i, next);
      chunk := chunk + [Strip(lines[i])];
      CueEndStep(lines, i, next);
      i := next;
    }
  }

  /** One turn of the cue loop of `process_vtt_file` at cursor `i`. */
  method VttStep(lines: seq<string>, i: nat) returns (piece: seq<string>, next: nat)
    requires i < |lines|
    ensures i < next <= |lines|
    ensures VttBlocks(lines, i) == piece + VttBlocks(lines, next)
  {
    piece := [];
    if Contains(lines[i], "-->") {
      var chunk;
      chunk, next := CollectCue(lines, i + 1);
      VttBlocksOpen(lines, i, next);
      CollectedChunk(lines, i + 1, next, chunk);
      if chunk != [] {
        piece := [Join(" ", chunk)];
      }
    } else {
      next := i + 1;
      VttBlocksPass(lines, i, next);
    }
  }

  /** `process_vtt_file`: the header search, then the cursor loop; the cue texts joined by single spaces. */
  method ProcessVtt(lines: seq<string>, corrected: bool) returns (text: string)
    ensures text == Join(" ", VttBlocks(lines, VttStart(lines, corrected)))
  {
    var start := FindStart(lines, corrected);
    var processed: seq<string> := [];
    var i := start;
    while i < |lines|
      invariant start <= i <= |lines|
      invariant processed + VttBlocks(lines, i) == VttBlocks(lines, start)
    {
      var piece, next := VttStep(lines, i);
      AppendAssoc(processed, piece, VttBlocks(lines, next));
      processed := processed + piece;
      i := next;
    }
    assert VttBlocks(lines, i) == [];
    assert processed + [] == processed;
    text := Join(" ", processed);
  }

  /** A timing line is never blank: it holds the non-space `-`. */
  lemma TimingNotBlank(line: string)
    requires IsTiming(line)
    ensures NotBlank(line)
  {
    var i :| 0 <= i <= |line| - 3 && OccursAt(line, "-->", i);
    assert line[i] == line[i..i + 3][0] == '-';
  }

  /** The lines a WebVTT writer produces for one cue: timing, text, blank line. */
  function VttCueLines(cue: Cue): seq<string> {
    [cue.timing] + cue.text + [""]
  }

  function VttCues(cues: seq<Cue>): seq<string> {
    if cues == [] then [] else VttCueLines(cues[0]) + VttCues(cues[1..])
  }

  /** A WebVTT file: the signature line, header lines such as `Kind: captions`, a blank line, then the cues. */
  function RenderVtt(header: seq<string>, cues: seq<Cue>): seq<string> {
    ["WEBVTT"] + header + [""] + VttCues(cues)
  }

  /** A header line holds a `:` and is no timing line. */
  predicate IsHeaderField(line: string) {
    ':' in line && !IsTiming(line)
  }

  /** A cue the WebVTT scan can read back: a timing line, and text lines neither blank nor timing lines. */
  predicate WellFormedVttCue(cue: Cue) {
    IsTiming(cue.timing) && forall k :: 0 <= k < |cue.text| ==> NotBlank(cue.text[k]) && !IsTiming(cue.text[k])
  }

  lemma {:induction false} CueEndAt(lines: seq<string>, start: nat, end: nat)
    requires start <= end < |lines|
    requires forall k :: start <= k < end ==> NotBlank(lines[k]) && !IsTiming(lines[k])
    requires !NotBlank(lines[end])
    ensures CueEnd(lines, start) == end
    decreases end - start
  {
    if start < end {
      var next := start + 1;
      CueEndStep(lines, start, next);
      CueEndAt(lines, next, end);
    }
  }

  /** Lines that are no timing lines are passed over one by one. */
  lemma {:induction false} VttBlocksPassOver(lines: seq<string>, i: nat, j: nat)
    requires i <= j <= |lines|
    requires forall k :: i <= k < j ==> !IsTiming(lines[k])
    ensures VttBlocks(lines, i) == VttBlocks(lines, j)
    decreases j - i
  {
    if i < j {
      var next := i + 1;
      VttBlocksPass(lines, i, next);
      VttBlocksPassOver(lines, next, j);
    }
  }

  lemma VttCueLayout(lines: seq<string>, p: nat, cue: Cue, rest: seq<string>, q: nat)
    requires p <= |lines| && lines[p..] == VttCueLines(cue) + rest
    requires q == p + 2 + |cue.text|
    ensures q <= |lines|
    ensures lines[p] == cue.timing
    ensures lines[p + 1..p + 1 + |cue.text|] == cue.text
    ensures lines[p + 1 + |cue.text|] == ""
    ensures lines[q..] == rest
  {
    var m := |cue.text|;
    var tail := lines[p..];
    assert tail == [cue.timing] + cue.text + ([""] + rest);
    assert lines[p] == tail[0];
    assert lines[p + 1..p + 1 + m] == tail[1..1 + m];
    assert lines[p + 1 + m] == tail[1 + m];
    assert lines[p + 2 + m..] == tail[2 + m..];
  }

  /** Where the lines from `p` on start with a rendered cue, the scan yields its text and moves past its blank line. */
  lemma VttCueAt(lines: seq<string>, p: nat, cue: Cue, rest: seq<string>, q: nat)
    requires WellFormedVttCue(cue)
    requires p <= |lines| && lines[p..] == VttCueLines(cue) + rest
    requires q == p + 2 + |cue.text|
    ensures q <= |lines| && lines[q..] == rest
    ensures VttBlocks(lines, p) == ChunkText(cue.text) + VttBlocks(lines, q)
  {
    var m := |cue.text|;
    var e := p + 1 + m;
    VttCueLayout(lines, p, cue, rest, q);
    var text := lines[p + 1..e];
    assert text == cue.text;
    forall k | p + 1 <= k < e
      ensures NotBlank(lines[k]) && !IsTiming(lines[k])
    {
      assert lines[k] == text[k - p - 1];
    }
    CueEndAt(lines, p + 1, e);
    VttBlocksOpen(lines, p, e);
    VttBlocksPass(lines, e, q);
  }

  /** Where the lines from `p` on are rendered cues, the scan from `p` recovers the cues' texts. */
  lemma {:induction false} VttCuesAt(lines: seq<string>, p: nat, cues: seq<Cue>)
    requires forall k :: 0 <= k < |cues| ==> WellFormedVttCue(cues[k])
    requires p <= |lines| && lines[p..] == VttCues(cues)
    ensures VttBlocks(lines, p) == CueTexts(cues)
    decreases |cues|
  {
    if cues == [] {
      assert |lines[p..]| == 0;
    } else {
      var q := p + 2 + |cues[0].text|;
      VttCueAt(lines, p, cues[0], VttCues(cues[1..]), q);
      assert forall k :: 0 <= k < |cues[1..]| ==> cues[1..][k] == cues[k + 1];
      VttCuesAt(lines, q, cues[1..]);
      assert CueTexts(cues) == ChunkText(cues[0].text) + CueTexts(cues[1..]);
    }
  }

  /** Where the header skip stops: past every line it skips, at the first it does not. */
  lemma {:induction false} MetaEndAt(lines: seq<string>, start: nat, end: nat, corrected: bool)
    requires start <= end <= |lines|
    requires forall k :: start <= k < end ==> SkipsAfterHeader(lines[k], corrected)
    requires end < |lines| ==> !SkipsAfterHeader(lines[end], corrected)
    ensures MetaEnd(lines, start, corrected) == end
    decreases end - start
  {
    if start < end {
      var next := start + 1;
      MetaEndStep(lines, start, corrected, next);
      MetaEndAt(lines, next, end, corrected);
    }
  }

  lemma RenderVttLayout(header: seq<string>, cues: seq<Cue>)
    ensures var lines := RenderVtt(header, cues);
      && |lines| == 2 + |header| + |VttCues(cues)|
      && lines[0] == "WEBVTT"
      && lines[1..1 + |header|] == header
      && lines[1 + |header|] == ""
      && lines[2 + |header|..] == VttCues(cues)
  {
    var lines := RenderVtt(header, cues);
    assert lines == ["WEBVTT"] + header + ([""] + VttCues(cues));
  }

  lemma WebVttIsHeader()
    ensures IsHeader("WEBVTT")
  {
    StripTrimmed("WEBVTT");
  }

  /** The header skip, as written or corrected, passes over the header fields and the blank line after them. */
  lemma HeaderFieldsSkipped(header: seq<string>, cues: seq<Cue>, corrected: bool)
    requires forall k :: 0 <= k < |header| ==> IsHeaderField(header[k])
    ensures 2 + |header| <= |RenderVtt(header, cues)|
    ensures FirstHeader(RenderVtt(header, cues), 0) == Some(0)
    ensures forall k :: 1 <= k < 2 + |header| ==> SkipsAfterHeader(RenderVtt(header, cues)[k], corrected)
  {
    var lines := RenderVtt(header, cues);
    var h := |header|;
    RenderVttLayout(header, cues);
    WebVttIsHeader();
    var fields := lines[1..1 + h];
    forall k | 1 <= k < 2 + h
      ensures SkipsAfterHeader(lines[k], corrected)
    {
      if k < 1 + h {
        assert lines[k] == fields[k - 1];
        assert IsHeaderField(header[k - 1]);
      } else {
        assert Strip(lines[k]) == [];
      }
    }
  }

  /** With the corrected skip, the scan of a rendered file begins at its first cue's timing line. */
  lemma VttStartRendered(header: seq<string>, cues: seq<Cue>)
    requires forall k :: 0 <= k < |header| ==> IsHeaderField(header[k])
    requires forall k :: 0 <= k < |cues| ==> WellFormedVttCue(cues[k])
    ensures VttStart(RenderVtt(header, cues), true) == 2 + |header|
  {
    var lines := RenderVtt(header, cues);
    var h := |header|;
    HeaderFieldsSkipped(header, cues, true);
    RenderVttLayout(header, cues);
    if cues != [] {
      var rest := lines[2 + h..];
      assert lines[2 + h] == rest[0] == cues[0].timing;
      TimingNotBlank(cues[0].timing);
    }
    MetaEndAt(lines, 1, 2 + h, true);
  }

  /** With the corrected skip, the scan of a rendered WebVTT file recovers the text of each of its cues, in order. */
  lemma VttRoundTrip(header: seq<string>, cues: seq<Cue>)
    requires forall k :: 0 <= k < |header| ==> IsHeaderField(header[k])
    requires forall k :: 0 <= k < |cues| ==> WellFormedVttCue(cues[k])
    ensures var lines := RenderVtt(header, cues);
      VttBlocks(lines, VttStart(lines, true)) == CueTexts(cues)
  {
    RenderVttLayout(header, cues);
    VttStartRendered(header, cues);
    VttCuesAt(RenderVtt(header, cues), 2 + |header|, cues);
  }

  /**
   * Written out as text, a well-formed WebVTT file whose lines hold no line
   * break converts, with the corrected skip, to the texts of its cues
   * joined by single spaces.
   */
  lemma VttFileRoundTrip(header: seq<string>, cues: seq<Cue>)
    requires forall k :: 0 <= k < |header| ==> IsHeaderField(header[k])
    requires forall k :: 0 <= k < |cues| ==> WellFormedVttCue(cues[k])
    requires forall k :: 0 <= k < |RenderVtt(header, cues)| ==> '\n' !in RenderVtt(header, cues)[k]
    ensures VttText(Join("\n", RenderVtt(header, cues)), true) == Join(" ", CueTexts(cues))
  {
    VttRoundTrip(header, cues);
    SplitJoin(RenderVtt(header, cues), '\n');
  }

  /**
   * As written, the header skip also passes over the first cue's timing
   * line when that line holds a `:` and the first text line does not: the
   * scan then begins at that text line.
   */
  lemma {:induction false} AsWrittenStart(header: seq<string>, cues: seq<Cue>)
    requires forall k :: 0 <= k < |header| ==> IsHeaderField(header[k])
    requires cues != [] && ':' in cues[0].timing
    requires cues[0].text != [] && NotBlank(cues[0].text[0]) && ':' !in cues[0].text[0]
    ensures VttStart(RenderVtt(header, cues), false) == 3 + |header|
  {
    var lines := RenderVtt(header, cues);
    var cue := cues[0];
    var p := 2 + |header|;
    var start := p + 1;
    assert start < |lines| && lines[p] == cue.timing && lines[start] == cue.text[0] by {
      RenderVttLayout(header, cues);
      VttCueLayout(lines, p, cue, VttCues(cues[1..]), p + 2 + |cue.text|);
      var text := lines[start..start + |cue.text|];
      assert lines[start] == text[0];
    }
    assert FirstHeader(lines, 0) == Some(0) && forall k :: 1 <= k < start ==> SkipsAfterHeader(lines[k], false) by {
      HeaderFieldsSkipped(header, cues, false);
      forall k | 1 <= k < start
        ensures SkipsAfterHeader(lines[k], false)
      {
        if k == p {
          assert ':' in lines[k];
        }
      }
    }
    MetaEndAt(lines, 1, start, false);
  }

  /**
   * As written, the header skip also passes over the first cue's timing
   * line whenever that line holds a `:` — as every WebVTT timestamp does —
   * and the first cue has no identifier line. The scan then begins inside
   * the first cue's text, passes over it, and the first cue is lost.
   */
  lemma {:induction false} AsWrittenDropsFirstCue(header: seq<string>, cues: seq<Cue>)
    requires forall k :: 0 <= k < |header| ==> IsHeaderField(header[k])
    requires forall k :: 0 <= k < |cues| ==> WellFormedVttCue(cues[k])
    requires cues != [] && ':' in cues[0].timing
    requires cues[0].text != [] && ':' !in cues[0].text[0]
    ensures var lines := RenderVtt(header, cues);
      VttBlocks(lines, VttStart(lines, false)) == CueTexts(cues[1..])
    ensures var lines := RenderVtt(header, cues);
      VttBlocks(lines, VttStart(lines, false)) != CueTexts(cues)
  {
    var lines := RenderVtt(header, cues);
    var cue := cues[0];
    var later := cues[1..];
    var p := 2 + |header|;
    var start := 3 + |header|;
    var q := p + 2 + |cue.text|;
    assert VttStart(lines, false) == start by {
      assert WellFormedVttCue(cue);
      AsWrittenStart(header, cues);
    }
    assert VttBlocks(lines, start) == CueTexts(later) by {
      assert lines[p..] == VttCueLines(cue) + VttCues(later) by {
        RenderVttLayout(header, cues);
      }
      assert forall k :: 0 <= k < |later| ==> WellFormedVttCue(later[k]) by {
        assert forall k :: 0 <= k < |later| ==> later[k] == cues[k + 1];
      }
      VttSkipFirstCue(lines, p, cue, later, start, q);
    }
    CueTextsFirst(cues);
  }

  /** A scan that begins past a cue's timing line yields the texts of the cues after it only. */
  lemma VttSkipFirstCue(lines: seq<string>, p: nat, cue: Cue, later: seq<Cue>, start: nat, q: nat)
    requires WellFormedVttCue(cue) && forall k :: 0 <= k < |later| ==> WellFormedVttCue(later[k])
    requires p <= |lines| && lines[p..] == VttCueLines(cue) + VttCues(later)
    requires start == p + 1 && q == p + 2 + |cue.text|
    ensures VttBlocks(lines, start) == CueTexts(later)
  {
    VttPassOverCue(lines, p, cue, VttCues(later), start, q);
    VttCuesAt(lines, q, later);
  }

  /** A first cue with text contributes a text of its own. */
  lemma CueTextsFirst(cues: seq<Cue>)
    requires cues != [] && cues[0].text != []
    ensures CueTexts(cues) != CueTexts(cues[1..])
  {
    assert |CueTexts(cues)| == 1 + |CueTexts(cues[1..])|;
  }

  /** A scan that begins at a cue's text, past its timing line, passes over the whole cue. */
  lemma VttPassOverCue(lines: seq<string>, p: nat, cue: Cue, rest: seq<string>, start: nat, q: nat)
    requires WellFormedVttCue(cue)
    requires p <= |lines| && lines[p..] == VttCueLines(cue) + rest
    requires start == p + 1 && q == p + 2 + |cue.text|
    ensures q <= |lines| && lines[q..] == rest
    ensures VttBlocks(lines, start) == VttBlocks(lines, q)
  {
    var m := |cue.text|;
    VttCueLayout(lines, p, cue, rest, q);
    var blank := p + 1 + m;
    assert lines[blank] == "";
    forall k | p + 1 <= k < q
      ensures !IsTiming(lines[k])
    {
      if k < blank {
        assert lines[k] == cue.text[k - p - 1];
      } else {
        assert k == blank;
      }
    }
    VttBlocksPassOver(lines, start, q);
  }

  /** The timing line of the example file below. */
  const ExampleTiming: string := "00:00:01.000 --> 00:00:04.000"

  lemma ExampleTimingLine()
    ensures IsTiming(ExampleTiming) && ':' in ExampleTiming
  {
    assert ExampleTiming == "00:00:01.000" + " --> " + "00:00:04.000";
    ArrowIsTiming("00:00:01.000", "00:00:04.000");
    assert ExampleTiming[2] == ':';
  }

  lemma ExampleTextLine()
    ensures NotBlank("Hello") && !IsTiming("Hello") && ':' !in "Hello" && Strip("Hello") == "Hello"
  {
    StripTrimmed("Hello");
    NoDashNoTiming("Hello");
  }

  /** Two times joined by ` --> ` form a timing line. */
  lemma ArrowIsTiming(a: string, b: string)
    ensures IsTiming(a + " --> " + b)
  {
    var s := a + " --> " + b;
    var i := |a| + 1;
    assert s[i..i + 3] == "-->";
    assert OccursAt(s, "-->", i);
  }

  /** A line without a `-` is no timing line. */
  lemma NoDashNoTiming(line: string)
    requires '-' !in line
    ensures !IsTiming(line)
  {
    forall i | 0 <= i <= |line| - 3
      ensures !OccursAt(line, "-->", i)
    {
      assert line[i..i + 3][0] == line[i];
    }
  }

  /** A one-cue file on which the scan as written yields nothing and the corrected one yields the cue's text. */
  lemma AsWrittenExample()
    ensures var lines := RenderVtt([], [Cue(ExampleTiming, ["Hello"])]);
      && lines == ["WEBVTT", "", ExampleTiming, "Hello", ""]
      && Join(" ", VttBlocks(lines, VttStart(lines, false))) == ""
      && Join(" ", VttBlocks(lines, VttStart(lines, true))) == "Hello"
  {
    ExampleTimingLine();
    ExampleTextLine();
    OneCueFile(ExampleTiming, "Hello");
  }

  /**
   * A file of one cue with one text line and no identifier, whose timing
   * line holds a `:`: as written the scan yields nothing, corrected it
   * yields the text line.
   */
  lemma OneCueFile(timing: string, line: string)
    requires IsTiming(timing) && ':' in timing
    requires NotBlank(line) && !IsTiming(line) && ':' !in line && Strip(line) == line
    ensures var lines := RenderVtt([], [Cue(timing, [line])]);
      && lines == ["WEBVTT", "", timing, line, ""]
      && Join(" ", VttBlocks(lines, VttStart(lines, false))) == ""
      && Join(" ", VttBlocks(lines, VttStart(lines, true))) == line
  {
    var cue := Cue(timing, [line]);
    var lines := RenderVtt([], [cue]);
    assert WellFormedVttCue(cue);
    assert lines == ["WEBVTT", "", timing, line, ""] by {
      assert VttCues([cue]) == VttCueLines(cue) + VttCues([]);
    }
    assert VttBlocks(lines, VttStart(lines, false)) == [] by {
      AsWrittenDropsFirstCue([], [cue]);
      assert [cue][1..] == [];
    }
    assert VttBlocks(lines, VttStart(lines, true)) == [line] by {
      VttRoundTrip([], [cue]);
      assert [cue][1..] == [];
      assert CueTexts([cue]) == ChunkText([line]);
      assert Stripped([line]) == [line];
    }
  }
}
