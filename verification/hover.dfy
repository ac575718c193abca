/** The hover processor of canoe/ui/hover_processor.py.

 For the line under the cursor, the processor reads the style of the
 one-character fragment at the cursor column, looks in it for the anchor
 tag `class:anchor class:_<digits>` that the renderer writes, remembers the
 anchor number, and marks reversed every fragment of the line whose style
 contains the tag found.

 The regular expression `\bclass:anchor class:_(\d+)\b` is replaced by the
 recogniser `MatchAt` (a match starting at one index) and `Search` (the
 leftmost match).
 */
module HoverProcessor {
  import opened Wrappers
  import opened Text
  import opened BeautifulSoupLexer

  /** A match of the anchor pattern: the matched text is `s[start..end]` and
      `index` is the value of its digits. */
  datatype AnchorMatch = AnchorMatch(start: nat, end: nat, index: nat)

  /** The length of the run of digits of `s` that starts at `j`. */
  function DigitRun(s: string, j: nat): (d: nat)
    requires j <= |s|
    ensures j + d <= |s|
    ensures forall k :: j <= k < j + d ==> IsDigit(s[k])
    ensures j + d == |s| || !IsDigit(s[j + d])
    decreases |s| - j
  {
    if j < |s| && IsDigit(s[j]) then 1 + DigitRun(s, j + 1) else 0
  }

  /** The pattern matched at index `i` of `s`: a word boundary, the literal
      prefix, the longest run of digits (at least one), and a word boundary
      after them. A shorter run of digits can never be followed by a word
      boundary, so the longest run is the only candidate. */
  function MatchAt(s: string, i: nat): (r: Option<AnchorMatch>)
    requires i <= |s|
    ensures var j := i + |AnchorPrefix|;
            r.Some? <==>
              && OccursAt(s, AnchorPrefix, i) && (i == 0 || !IsWordChar(s[i - 1]))
              && DigitRun(s, j) > 0
              && (j + DigitRun(s, j) == |s| || !IsWordChar(s[j + DigitRun(s, j)]))
    ensures r.Some? ==> r.value.start == i && i + |AnchorPrefix| < r.value.end <= |s|
    ensures r.Some? ==>
              var digits := s[i + |AnchorPrefix|..r.value.end];
              && AllDigits(digits)
              && (r.value.end == |s| || !IsWordChar(s[r.value.end]))
              && r.value.index == DecimalValue(digits)
  {
    var j := i + |AnchorPrefix|;
    if OccursAt(s, AnchorPrefix, i) && (i == 0 || !IsWordChar(s[i - 1])) then
      var d := DigitRun(s, j);
      if d > 0 && (j + d == |s| || !IsWordChar(s[j + d])) then
        var digits := s[j..j + d];
        assert forall k :: 0 <= k < d ==> digits[k] == s[j + k];
        Some(AnchorMatch(i, j + d, DecimalValue(digits)))
      else None
    else None
  }

  /** The leftmost match starting at index `i` or later. */
  function SearchFrom(s: string, i: nat): (r: Option<AnchorMatch>)
    requires i <= |s|
    ensures r.Some? ==> i <= r.value.start <= |s| && MatchAt(s, r.value.start) == r
    decreases |s| - i
  {
    if MatchAt(s, i).Some? then MatchAt(s, i)
    else if i == |s| then None
    else
      SearchFrom(s, i + 1)
  }

  /** No match starts at an index from `i` up to, not including, `j`. */
  predicate NoMatchBetween(s: string, i: nat, j: nat)
    requires i <= j <= |s| + 1
    decreases j - i
  {
    i == j || (MatchAt(s, i).None? && NoMatchBetween(s, i + 1, j))
  }

  lemma {:induction false} NoMatchBetweenAll(s: string, i: nat, j: nat)
    requires i <= j <= |s| + 1 && NoMatchBetween(s, i, j)
    ensures forall k :: i <= k < j ==> MatchAt(s, k).None?
    decreases j - i
  {
    if i < j {
      NoMatchBetweenAll(s, i + 1, j);
      forall k | i <= k < j
        ensures MatchAt(s, k).None?
      {
        if k != i {
          assert i + 1 <= k;
        }
      }
    }
  }

  /** The match `SearchFrom` finds is the leftmost one at or after `i`, and
      when it finds none there is none. */
  lemma {:induction false} SearchFromLeftmost(s: string, i: nat)
    requires i <= |s|
    ensures var r := SearchFrom(s, i);
            && (r.Some? ==> NoMatchBetween(s, i, r.value.start))
            && (r.None? ==> NoMatchBetween(s, i, |s| + 1))
    decreases |s| - i
  {
    if MatchAt(s, i).None? && i < |s| {
      SearchFromLeftmost(s, i + 1);
    }
  }

  /** `ANCHORE_PATTERN.search(s)`. */
  function Search(s: string): (r: Option<AnchorMatch>)
    ensures r.Some? ==> r.value.start <= |s| && MatchAt(s, r.value.start) == r
    ensures r.Some? ==> forall k :: 0 <= k < r.value.start ==> MatchAt(s, k).None?
    ensures r.None? ==> forall k :: 0 <= k <= |s| ==> MatchAt(s, k).None?
  {
    var r := SearchFrom(s, 0);
    SearchFromLeftmost(s, 0);
    if r.Some? then NoMatchBetweenAll(s, 0, r.value.start); r
    else NoMatchBetweenAll(s, 0, |s| + 1); r
  }

  /** The text a match covers, `m.group(0)`. */
  function Matched(s: string, m: AnchorMatch): string
    requires m.start <= m.end <= |s|
  {
    s[m.start..m.end]
  }

  const Reverse := " reverse "

  /** The fragments of a line with ` reverse ` appended to the style of each
      one whose style contains `tag`; texts and all other styles unchanged. */
  function Highlight(frags: seq<Fragment>, tag: string): (r: seq<Fragment>)
    ensures |r| == |frags|
    ensures forall i :: 0 <= i < |frags| ==> r[i].text == frags[i].text
    ensures forall i :: 0 <= i < |frags| ==>
              r[i].style == if Contains(frags[i].style, tag) then frags[i].style + Reverse
                            else frags[i].style
  {
    if frags == [] then []
    else
      var f := frags[0];
      [if Contains(f.style, tag) then f.(style := f.style + Reverse) else f]
        + Highlight(frags[1..], tag)
  }

  /** The processor's remembered anchor number and the transformed line. */
  datatype Transformation = Transformation(anchorIndex: Option<nat>, fragments: seq<Fragment>)

  /** `apply_transformation` for line `lineno`, whose fragments are already
      one character each, with the cursor at (`cursorRow`, `cursorCol`)
      in display columns. */
  function ApplyTransformation(anchorIndex: Option<nat>, lineno: nat, cursorRow: nat,
                               cursorCol: nat, frags: seq<Fragment>): (r: Transformation)
    ensures |r.fragments| == |frags|
    ensures forall i :: 0 <= i < |frags| ==> r.fragments[i].text == frags[i].text
    ensures cursorRow != lineno || cursorCol >= |frags| ==>
              r == Transformation(anchorIndex, frags)
    ensures cursorRow == lineno && cursorCol < |frags| && Search(frags[cursorCol].style).None? ==>
              r == Transformation(None, frags)
    ensures cursorRow == lineno && cursorCol < |frags| && Search(frags[cursorCol].style).Some? ==>
              var style := frags[cursorCol].style;
              var m := Search(style).value;
              && r.anchorIndex == Some(m.index)
              && forall i :: 0 <= i < |frags| ==>
                   r.fragments[i].style ==
                     if Contains(frags[i].style, Matched(style, m)) then frags[i].style + Reverse
                     else frags[i].style
  {
    if cursorRow != lineno || cursorCol >= |frags| then Transformation(anchorIndex, frags)
    else
      var style := frags[cursorCol].style;
      match Search(style)
      case None => Transformation(None, frags)
      case Some(m) => Transformation(Some(m.index), Highlight(frags, Matched(style, m)))
  }

  // ----- the anchor tag written by the renderer is read back -----

  lemma {:induction false} DigitRunOf(s: string, j: nat, d: nat)
    requires j + d <= |s|
    requires forall k :: j <= k < j + d ==> IsDigit(s[k])
    requires j + d == |s| || !IsDigit(s[j + d])
    ensures DigitRun(s, j) == d
    decreases d
  {
    if d > 0 {
      DigitRunOf(s, j + 1, d - 1);
    }
  }

  /** The style `push_anchor(n)` written at index `i` of `s`, with no word
      character on either side, is a match there that yields `n`. */
  lemma MatchAtAnchorStyle(s: string, i: nat, n: nat)
    requires i + |AnchorStyle(n)| <= |s|
    requires s[i..i + |AnchorStyle(n)|] == AnchorStyle(n)
    requires i == 0 || !IsWordChar(s[i - 1])
    requires i + |AnchorStyle(n)| == |s| || !IsWordChar(s[i + |AnchorStyle(n)|])
    ensures MatchAt(s, i) == Some(AnchorMatch(i, i + |AnchorStyle(n)|, n))
  {
    var j := i + |AnchorPrefix|;
    var d := |Decimal(n)|;
    assert s[i..j] == AnchorStyle(n)[..|AnchorPrefix|] == AnchorPrefix;
    assert s[j..j + d] == AnchorStyle(n)[|AnchorPrefix|..] == Decimal(n);
    assert OccursAt(s, AnchorPrefix, i);
    assert forall k :: j <= k < j + d ==> s[k] == Decimal(n)[k - j];
    DigitRunOf(s, j, d);
    DecimalRoundTrip(n);
    assert DecimalValue(s[j..j + d]) == n;
    MatchAtDigits(s, i, d);
  }

  /** A match at `i`: the prefix after a word boundary, then `d` digits and
      a word boundary. */
  lemma MatchAtDigits(s: string, i: nat, d: nat)
    requires OccursAt(s, AnchorPrefix, i) && (i == 0 || !IsWordChar(s[i - 1]))
    requires DigitRun(s, i + |AnchorPrefix|) == d > 0
    requires i + |AnchorPrefix| + d == |s| || !IsWordChar(s[i + |AnchorPrefix| + d])
    ensures MatchAt(s, i) == Some(AnchorMatch(i, i + |AnchorPrefix| + d,
                                              DecimalValue(s[i + |AnchorPrefix|..i + |AnchorPrefix| + d])))
  {
  }

  /** The style `push_anchor(n)` returns, followed by anything that does not
      start with a word character, is matched from its first character on
      and yields `n`. */
  lemma AnchorStyleParses(n: nat, rest: string)
    requires rest == [] || !IsWordChar(rest[0])
    ensures Search(AnchorStyle(n) + rest) == Some(AnchorMatch(0, |AnchorStyle(n)|, n))
  {
    var s := AnchorStyle(n) + rest;
    assert s[0..|AnchorStyle(n)|] == AnchorStyle(n);
    MatchAtAnchorStyle(s, 0, n);
  }

  /** Round trip: the hover processor reads back from the style of the
      anchor `push_anchor` records the position at which it recorded it. */
  lemma PushAnchorRoundTrip(st: Lexer, tag: Dom.Element)
    ensures var (st1, style) := PushAnchor(st, tag);
            && Search(style).Some?
            && Search(style).value.index == |st.anchors|
            && st1.anchors[Search(style).value.index] == tag
  {
    AnchorStyleParses(|st.anchors|, "");
    assert AnchorStyle(|st.anchors|) + "" == AnchorStyle(|st.anchors|);
  }

  /** The anchor tag is found after a leading blank as well; with `rest` a
      single blank this is the pattern's unit test. */
  lemma PaddedAnchorStyleParses(n: nat, rest: string)
    requires rest == [] || !IsWordChar(rest[0])
    ensures Search(" " + AnchorStyle(n) + rest) == Some(AnchorMatch(1, 1 + |AnchorStyle(n)|, n))
  {
    var s := " " + AnchorStyle(n) + rest;
    assert s[0] == ' ' != AnchorPrefix[0];
    assert MatchAt(s, 0).None?;
    assert s[1..1 + |AnchorStyle(n)|] == AnchorStyle(n);
    MatchAtAnchorStyle(s, 1, n);
    assert SearchFrom(s, 1) == MatchAt(s, 1);
    assert SearchFrom(s, 0) == SearchFrom(s, 1);
  }

  lemma PatternUnitTest()
    ensures Search(" class:anchor class:_0 ").Some?
    ensures Search(" class:anchor class:_0 ").value.index == 0
  {
    UnitTestStyle();
    PaddedAnchorStyleParses(0, " ");
  }

  /** The unit test's string is anchor 0's style between two blanks. */
  lemma UnitTestStyle()
    ensures " class:anchor class:_0 " == " " + AnchorStyle(0) + " "
  {
    AnchorStyleZero();
  }

  /** Anchor 0's style, spelled out. */
  lemma AnchorStyleZero()
    ensures AnchorStyle(0) == "class:anchor class:_0"
  {
    assert Decimal(0) == "0";
  }

  /** Hovering a fragment the renderer styled for anchor `n` makes `n` the
      remembered anchor. */
  lemma HoverRemembersAnchor(anchorIndex: Option<nat>, lineno: nat, col: nat,
                             frags: seq<Fragment>, n: nat)
    requires col < |frags| && frags[col].style == AnchorStyle(n)
    ensures ApplyTransformation(anchorIndex, lineno, lineno, col, frags).anchorIndex == Some(n)
  {
    AnchorStyleParses(n, "");
    assert AnchorStyle(n) + "" == AnchorStyle(n);
  }

  /** Hovering a fragment the renderer styled for anchor `n` makes `n` the
      remembered anchor and reverses every fragment of that anchor. */
  lemma HoverOnAnchor(anchorIndex: Option<nat>, lineno: nat, col: nat,
                      frags: seq<Fragment>, n: nat)
    requires col < |frags| && frags[col].style == AnchorStyle(n)
    ensures var r := ApplyTransformation(anchorIndex, lineno, lineno, col, frags);
            && r.anchorIndex == Some(n)
            && forall i :: 0 <= i < |frags| && frags[i].style == AnchorStyle(n) ==>
                 r.fragments[i].style == AnchorStyle(n) + Reverse
  {
    AnchorStyleParses(n, "");
    assert AnchorStyle(n) + "" == AnchorStyle(n);
    var m := Search(AnchorStyle(n)).value;
    assert Matched(AnchorStyle(n), m) == AnchorStyle(n);
    forall i | 0 <= i < |frags| && frags[i].style == AnchorStyle(n)
      ensures Contains(frags[i].style, AnchorStyle(n))
    {
      assert OccursAt(frags[i].style, AnchorStyle(n), 0);
    }
  }

  // ----- anchors whose number starts with the hovered one's -----

  /** As written, hovering anchor 1 also reverses the fragments of anchor 12:
      the test is containment of the matched text, and `..._1` is contained
      in `..._12`. */
  lemma HoverAlsoReversesLongerNumber()
    ensures var frags := [Fragment(AnchorStyle(1), "a"), Fragment(AnchorStyle(12), "b")];
            var r := ApplyTransformation(None, 0, 0, 0, frags);
            && r.anchorIndex == Some(1)
            && r.fragments[1].style == AnchorStyle(12) + Reverse
  {
    var a1 := AnchorStyle(1);
    var a12 := AnchorStyle(12);
    var frags := [Fragment(a1, "a"), Fragment(a12, "b")];
    assert Decimal(12) == Decimal(1) + [DigitChar(2)];
    assert a12 == a1 + [DigitChar(2)];
    assert OccursAt(a12, a1, 0) by {
      assert a12[0..|a1|] == a1;
    }
    assert Contains(a12, a1);
    AnchorStyleParses(1, "");
    assert a1 + "" == a1;
    var m := Search(a1).value;
    assert m == AnchorMatch(0, |a1|, 1);
    assert Matched(a1, m) == a1;
    var r := ApplyTransformation(None, 0, 0, 0, frags);
    assert r.fragments[1].style == a12 + Reverse;
  }


  /** The anchor number a style carries, if any. */
  function StyleAnchor(style: string): (r: Option<nat>)
    ensures r.Some? <==> Search(style).Some?
    ensures r.Some? ==> r.value == Search(style).value.index
  {
    match Search(style)
    case None => None
    case Some(m) => Some(m.index)
  }

  /** The fragments of a line with ` reverse ` appended to the style of each
      one that carries anchor number `n`. */
  function HighlightAnchor(frags: seq<Fragment>, n: nat): (r: seq<Fragment>)
    ensures |r| == |frags|
    ensures forall i :: 0 <= i < |frags| ==> r[i].text == frags[i].text
    ensures forall i :: 0 <= i < |frags| ==>
              r[i].style == if StyleAnchor(frags[i].style) == Some(n) then frags[i].style + Reverse
                            else frags[i].style
  {
    if frags == [] then []
    else
      var f := frags[0];
      [if StyleAnchor(f.style) == Some(n) then f.(style := f.style + Reverse) else f]
        + HighlightAnchor(frags[1..], n)
  }

  /** The transformation with the intended highlight: it remembers the same
      anchor number as `ApplyTransformation`, and reverses a fragment exactly
      when the fragment carries the hovered anchor's number. */
  function ApplyTransformationCorrected(anchorIndex: Option<nat>, lineno: nat, cursorRow: nat,
                                       cursorCol: nat, frags: seq<Fragment>): (r: Transformation)
    ensures r.anchorIndex == ApplyTransformation(anchorIndex, lineno, cursorRow, cursorCol, frags).anchorIndex
    ensures |r.fragments| == |frags|
    ensures forall i :: 0 <= i < |frags| ==> r.fragments[i].text == frags[i].text
    ensures cursorRow != lineno || cursorCol >= |frags| || Search(frags[cursorCol].style).None? ==>
              r.fragments == frags
    ensures cursorRow == lineno && cursorCol < |frags| && Search(frags[cursorCol].style).Some? ==>
              forall i :: 0 <= i < |frags| ==>
                r.fragments[i].style ==
                  if StyleAnchor(frags[i].style) == r.anchorIndex then frags[i].style + Reverse
                  else frags[i].style
  {
    if cursorRow != lineno || cursorCol >= |frags| then Transformation(anchorIndex, frags)
    else
      match StyleAnchor(frags[cursorCol].style)
      case None => Transformation(None, frags)
      case Some(n) => Transformation(Some(n), HighlightAnchor(frags, n))
  }

  /** With the corrected highlight, among fragments the renderer styled for
      anchors, hovering anchor `n` reverses exactly those of anchor `n`; in
      particular anchor 12 stays unmarked when anchor 1 is hovered. */
  lemma CorrectedHoverReversesOnlyHovered(lineno: nat, col: nat, frags: seq<Fragment>,
                                          n: nat, i: nat, k: nat)
    requires col < |frags| && frags[col].style == AnchorStyle(n)
    requires i < |frags| && frags[i].style == AnchorStyle(k)
    ensures var r := ApplyTransformationCorrected(None, lineno, lineno, col, frags);
            && r.anchorIndex == Some(n)
            && (r.fragments[i].style == AnchorStyle(k) + Reverse <==> k == n)
  {
    AnchorStyleParses(n, "");
    assert AnchorStyle(n) + "" == AnchorStyle(n);
    AnchorStyleParses(k, "");
    assert AnchorStyle(k) + "" == AnchorStyle(k);
  }
}
