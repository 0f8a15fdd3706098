/**
 * The natural-sort key shared by the Markdown merger and the two subtitle
 * converters: `[int(t) if t.isdigit() else t.lower() for t in re.split(r'(\d+)', s)]`,
 * together with Python's ordering of the resulting lists.
 */
module NaturalSort {
  import opened Text
  import opened Sorting

  /** One element of a key: a lower-cased text run or the value of a digit run. */
  datatype KeyPart = Str(text: string) | Int(value: nat)

  /** Length of the longest digit-free prefix of `s`. */
  function TextRun(s: string): (k: nat)
    ensures k <= |s| && NoDigit(s[..k])
    ensures k < |s| ==> IsDigit(s[k])
  {
    if s == [] || IsDigit(s[0]) then 0
    else
      var k' := TextRun(s[1..]);
      assert s[..k' + 1] == [s[0]] + s[1..][..k'];
      k' + 1
  }

  /** Length of the longest all-digit prefix of `s`. */
  function DigitRun(s: string): (k: nat)
    ensures k <= |s|
    ensures forall i :: 0 <= i < k ==> IsDigit(s[i])
    ensures k < |s| ==> !IsDigit(s[k])
  {
    if s == [] || !IsDigit(s[0]) then 0 else DigitRun(s[1..]) + 1
  }

  /** `re.split(r'(\d+)', s)` on ASCII text; the split starts and ends with a text run, so its length is odd. */
  function Segments(s: string): (parts: seq<string>)
    ensures |parts| % 2 == 1
    decreases |s|
  {
    var a := TextRun(s);
    if a == |s| then [s]
    else
      var b := a + DigitRun(s[a..]);
      var rest := Segments(s[b..]);
      ParityStep(|rest|);
      [s[..a], s[a..b]] + rest
  }

  /** Two more elements keep the parity of a length. */
  lemma ParityStep(n: nat)
    ensures (n + 2) % 2 == n % 2
  {
  }

  /** Concatenating the split gives back the string: nothing is lost. */
  lemma {:induction false} SegmentsFlatten(s: string)
    ensures Flatten(Segments(s)) == s
    decreases |s|
  {
    var a := TextRun(s);
    if a == |s| {
      assert Segments(s) == [s];
      FlattenOne(s);
    } else {
      var b := a + DigitRun(s[a..]);
      var rest := Segments(s[b..]);
      assert Segments(s) == [s[..a], s[a..b]] + rest;
      SegmentsFlatten(s[b..]);
      FlattenCons2(s[..a], s[a..b], rest);
      SliceParts(s, a, b);
    }
  }

  /** The even positions of the split hold no digit. */
  lemma {:induction false} SegmentsTextRuns(s: string)
    ensures forall k :: 0 <= k < |Segments(s)| && k % 2 == 0 ==> NoDigit(Segments(s)[k])
    decreases |s|
  {
    var a := TextRun(s);
    if a != |s| {
      var b := a + DigitRun(s[a..]);
      var rest := Segments(s[b..]);
      SegmentsTextRuns(s[b..]);
      var segs := [s[..a], s[a..b]] + rest;
      assert segs == Segments(s);
      forall k | 2 <= k < |segs|
        ensures segs[k] == rest[k - 2] && (k % 2 == 0 <==> (k - 2) % 2 == 0)
      {
      }
    }
  }

  /** The odd positions of the split are non-empty runs of digits. */
  lemma {:induction false} SegmentsDigitRuns(s: string)
    ensures forall k :: 0 <= k < |Segments(s)| && k % 2 == 1 ==> IsDigits(Segments(s)[k])
    decreases |s|
  {
    var a := TextRun(s);
    if a != |s| {
      var b := a + DigitRun(s[a..]);
      var rest := Segments(s[b..]);
      SegmentsDigitRuns(s[b..]);
      var segs := [s[..a], s[a..b]] + rest;
      assert segs == Segments(s);
      assert IsDigits(s[a..b]) by {
        forall i | 0 <= i < b - a ensures IsDigit(s[a..b][i]) {
          assert s[a..b][i] == s[a..][i];
        }
      }
      forall k | 2 <= k < |segs|
        ensures segs[k] == rest[k - 2] && (k % 2 == 0 <==> (k - 2) % 2 == 0)
      {
      }
    }
  }

  lemma FlattenOne(s: string)
    ensures Flatten([s]) == s
  {
    assert [s][1..] == [];
  }

  lemma SliceParts(s: string, a: nat, b: nat)
    requires a <= b <= |s|
    ensures s[..a] + (s[a..b] + s[b..]) == s
  {
  }

  lemma FlattenCons2(x: string, y: string, rest: seq<string>)
    ensures Flatten([x, y] + rest) == x + (y + Flatten(rest))
  {
    assert ([x, y] + rest)[1..] == [y] + rest;
    assert ([y] + rest)[1..] == rest;
  }

  /** `int(t) if t.isdigit() else t.lower()` */
  function Part(t: string): KeyPart {
    if IsDigits(t) then Int(DecimalValue(t)) else Str(Lower(t))
  }

  /**
   * The key alternates text and number parts, starting and ending with text,
   * so it always has odd length.
   */
  function NaturalSortKey(s: string): (key: seq<KeyPart>)
    ensures |key| == |Segments(s)| && |key| % 2 == 1
    ensures forall k :: 0 <= k < |key| ==> (key[k].Str? <==> k % 2 == 0)
    ensures forall k :: 0 <= k < |key| ==> key[k] == Part(Segments(s)[k])
  {
    var segs := Segments(s);
    SegmentsTextRuns(s);
    SegmentsDigitRuns(s);
    seq(|segs|, k requires 0 <= k < |segs| => Part(segs[k]))
  }

  /**
   * Python's comparison of two lists (or strings): the first position
   * where they differ decides; a proper prefix comes first.
   */
  predicate LexLess<T(==)>(a: seq<T>, b: seq<T>, less: (T, T) -> bool) {
    if a == [] then b != []
    else if b == [] then false
    else if a[0] == b[0] then LexLess(a[1..], b[1..], less)
    else less(a[0], b[0])
  }

  predicate CharLess(c: char, d: char) {
    c < d
  }

  /**
   * Python's `<` between two key parts. Python raises on a str/int pair;
   * NaturalKeysNeverMixed shows that such a pair is never compared, and the
   * order chosen here for it only makes the relation total.
   */
  predicate PartLess(x: KeyPart, y: KeyPart) {
    match (x, y)
    case (Str(a), Str(b)) => LexLess(a, b, CharLess)
    case (Int(m), Int(n)) => m < n
    case (Str(_), Int(_)) => true
    case (Int(_), Str(_)) => false
  }

  /** Python's `<` between two natural-sort keys. */
  predicate KeyLess(a: seq<KeyPart>, b: seq<KeyPart>) {
    LexLess(a, b, PartLess)
  }

  lemma {:induction false} LexLessIrreflexive<T(!new)>(a: seq<T>, less: (T, T) -> bool)
    ensures !LexLess(a, a, less)
  {
    if a != [] {
      LexLessIrreflexive(a[1..], less);
    }
  }

  lemma {:induction false} LexLessTransitive<T(!new)>(a: seq<T>, b: seq<T>, c: seq<T>, less: (T, T) -> bool)
    requires StrictTotalOrder(less)
    requires LexLess(a, b, less) && LexLess(b, c, less)
    ensures LexLess(a, c, less)
  {
    if a != [] && b != [] && c != [] {
      if a[0] == b[0] && b[0] == c[0] {
        LexLessTransitive(a[1..], b[1..], c[1..], less);
      } else if a[0] != b[0] && b[0] != c[0] {
        assert less(a[0], b[0]) && less(b[0], c[0]);
      }
    }
  }

  lemma {:induction false} LexLessTotal<T(!new)>(a: seq<T>, b: seq<T>, less: (T, T) -> bool)
    requires StrictTotalOrder(less)
    requires a != b
    ensures LexLess(a, b, less) || LexLess(b, a, less)
  {
    if a != [] && b != [] && a[0] == b[0] {
      assert a == [a[0]] + a[1..] && b == [b[0]] + b[1..];
      LexLessTotal(a[1..], b[1..], less);
    }
  }

  lemma CharLessIsStrictTotalOrder()
    ensures StrictTotalOrder(CharLess)
  {
  }

  lemma {:induction false} PartLessIsStrictTotalOrder()
    ensures StrictTotalOrder(PartLess)
  {
    CharLessIsStrictTotalOrder();
    forall x: KeyPart ensures !PartLess(x, x) {
      if x.Str? { LexLessIrreflexive(x.text, CharLess); }
    }
    forall x: KeyPart, y: KeyPart, z: KeyPart | PartLess(x, y) && PartLess(y, z) ensures PartLess(x, z) {
      if x.Str? && y.Str? && z.Str? { LexLessTransitive(x.text, y.text, z.text, CharLess); }
    }
    forall x: KeyPart, y: KeyPart | x != y ensures PartLess(x, y) || PartLess(y, x) {
      if x.Str? && y.Str? { LexLessTotal(x.text, y.text, CharLess); }
    }
  }

  /** Python's ordering of natural-sort keys is a strict total order, so sorting by it is well defined. */
  lemma {:induction false} KeyLessIsStrictTotalOrder()
    ensures StrictTotalOrder(KeyLess)
  {
    PartLessIsStrictTotalOrder();
    forall a: seq<KeyPart> ensures !KeyLess(a, a) {
      LexLessIrreflexive(a, PartLess);
    }
    forall a: seq<KeyPart>, b: seq<KeyPart>, c: seq<KeyPart> | KeyLess(a, b) && KeyLess(b, c) ensures KeyLess(a, c) {
      LexLessTransitive(a, b, c, PartLess);
    }
    forall a: seq<KeyPart>, b: seq<KeyPart> | a != b ensures KeyLess(a, b) || KeyLess(b, a) {
      LexLessTotal(a, b, PartLess);
    }
  }

  /** Part `k` of `a` is text exactly when `k + shift` is even. */
  predicate Alternates(a: seq<KeyPart>, shift: nat) {
    forall k :: 0 <= k < |a| ==> (a[k].Str? <==> (k + shift) % 2 == 0)
  }

  /**
   * Python's list comparison walks both keys up to their first difference;
   * true when that walk meets a text part opposite a number part (which
   * would raise TypeError).
   */
  predicate ComparesMixed(a: seq<KeyPart>, b: seq<KeyPart>) {
    a != [] && b != [] && (a[0].Str? != b[0].Str? || (a[0] == b[0] && ComparesMixed(a[1..], b[1..])))
  }

  lemma {:induction false} AlternatingNeverMixed(a: seq<KeyPart>, b: seq<KeyPart>, shift: nat)
    requires Alternates(a, shift) && Alternates(b, shift)
    ensures !ComparesMixed(a, b)
  {
    if a != [] && b != [] {
      assert Alternates(a[1..], shift + 1) by {
        forall k | 0 <= k < |a[1..]| ensures (a[1..][k].Str? <==> (k + shift + 1) % 2 == 0) {
          assert a[1..][k] == a[k + 1];
        }
      }
      assert Alternates(b[1..], shift + 1) by {
        forall k | 0 <= k < |b[1..]| ensures (b[1..][k].Str? <==> (k + shift + 1) % 2 == 0) {
          assert b[1..][k] == b[k + 1];
        }
      }
      AlternatingNeverMixed(a[1..], b[1..], shift + 1);
    }
  }

  /** Comparing two natural-sort keys never sets a string against an integer. */
  lemma NaturalKeysNeverMixed(s: string, t: string)
    ensures !ComparesMixed(NaturalSortKey(s), NaturalSortKey(t))
  {
    AlternatingNeverMixed(NaturalSortKey(s), NaturalSortKey(t), 0);
  }

  /** A digit-free text followed by a run of digits splits into the text, the digits and an empty tail. */
  lemma SegmentsOfTextNumber(t: string, d: string)
    requires t != [] && NoDigit(t) && IsDigits(d)
    ensures Segments(t + d) == [t, d, ""]
  {
    var s := t + d;
    assert TextRun(s) == |t| by {
      TextRunOf(t, d);
    }
    assert s[|t|..] == d && s[..|t|] == t;
    assert DigitRun(d) == |d| by {
      DigitRunAll(d);
    }
    assert s[|t|..|s|] == d && s[|s|..] == [];
    assert Segments([]) == [[]];
  }

  lemma {:induction false} TextRunOf(t: string, d: string)
    requires NoDigit(t) && (d != [] ==> IsDigit(d[0]))
    ensures TextRun(t + d) == |t|
    decreases |t|
  {
    if t == [] {
      assert t + d == d;
    } else {
      assert (t + d)[1..] == t[1..] + d;
      assert NoDigit(t[1..]) by {
        forall i | 0 <= i < |t[1..]| ensures !IsDigit(t[1..][i]) {
          assert t[1..][i] == t[i + 1];
        }
      }
      assert !IsDigit(t[0]);
      TextRunOf(t[1..], d);
    }
  }

  lemma {:induction false} DigitRunAll(d: string)
    requires forall i :: 0 <= i < |d| ==> IsDigit(d[i])
    ensures DigitRun(d) == |d|
    decreases |d|
  {
    if d != [] {
      DigitRunAll(d[1..]);
    }
  }

  /** The key of a digit-free text followed by a run of digits: the lower-cased text, the number, an empty text. */
  lemma KeyOfTextNumber(t: string, d: string)
    requires t != [] && NoDigit(t) && IsDigits(d)
    ensures NaturalSortKey(t + d) == [Str(Lower(t)), Int(DecimalValue(d)), Str("")]
  {
    SegmentsOfTextNumber(t, d);
    var key := NaturalSortKey(t + d);
    assert |key| == 3;
    assert !IsDigits(t) by {
      assert !IsDigit(t[0]);
    }
    assert key[0] == Part(t) == Str(Lower(t));
    assert key[1] == Part(d) == Int(DecimalValue(d));
    assert key[2] == Part("") == Str("");
  }

  lemma KeyOfFile2()
    ensures NaturalSortKey("file2") == [Str("file"), Int(2), Str("")]
  {
    assert "file2" == "file" + "2";
    KeyOfTextNumber("file", "2");
    assert DecimalValue("2") == 2;
    assert Lower("file") == "file";
  }

  lemma KeyOfFile10()
    ensures NaturalSortKey("file10") == [Str("file"), Int(10), Str("")]
  {
    assert "file10" == "file" + "10";
    KeyOfTextNumber("file", "10");
    assert DecimalValue("10") == 10 by {
      assert "10"[..1] == "1";
    }
    assert Lower("file") == "file";
  }

  /** Natural order puts "file2" before "file10". */
  lemma File2BeforeFile10()
    ensures KeyLess(NaturalSortKey("file2"), NaturalSortKey("file10"))
  {
    KeyOfFile2();
    KeyOfFile10();
    NumberDecides("file", 2, 10, "", "");
  }

  /** Keys that agree on their first part are ordered by their second. */
  lemma NumberDecides(t: string, m: nat, n: nat, u: string, v: string)
    requires m < n
    ensures KeyLess([Str(t), Int(m), Str(u)], [Str(t), Int(n), Str(v)])
  {
    var a := [Str(t), Int(m), Str(u)];
    var b := [Str(t), Int(n), Str(v)];
    assert a[1..] == [Int(m), Str(u)] && b[1..] == [Int(n), Str(v)];
  }

  /** Plain string order puts "file10" before "file2", which is what the natural key corrects. */
  lemma File10BeforeFile2AsText()
    ensures LexLess("file10", "file2", CharLess)
  {
    assert "file10"[1..] == "ile10" && "file2"[1..] == "ile2";
    assert "ile10"[1..] == "le10" && "ile2"[1..] == "le2";
    assert "le10"[1..] == "e10" && "le2"[1..] == "e2";
    assert "e10"[1..] == "10" && "e2"[1..] == "2";
  }
}
