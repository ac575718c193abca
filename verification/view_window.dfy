/** The document view of canoe/ui/view_window.py: a text buffer that is kept
 read-only, the renderer that fills it and styles its lines, and the hover
 processor whose remembered anchor number picks the link under the cursor.

 The buffer's refusal to be written while read-only is the text toolkit's
 rule, modelled by `SetBufferText`; the toolkit asks the renderer for each
 buffer line (`GetLine`) and splits a line's fragments into one fragment per
 character (`Explode`) before the hover processor sees them.
 */
module ViewWindow {
  import opened Wrappers
  import opened Text
  import opened Dom
  import opened BeautifulSoupLexer
  import opened HoverProcessor

  datatype Window = Window(readOnly: bool, text: string, lexer: Lexer, hover: Option<nat>)

  /** A freshly built view: read-only, empty, nothing hovered, over a
      freshly built renderer. */
  function Init(): (w: Window)
    ensures w.readOnly && w.text == "" && w.hover.None?
    ensures w.lexer == BeautifulSoupLexer.Init()
  {
    Window(true, "", BeautifulSoupLexer.Init(), None)
  }

  /** Assigning `buffer.text`: refused while the buffer is read-only. */
  function SetBufferText(w: Window, t: string): (r: Result<Window>)
    ensures r.Ok? <==> !w.readOnly
    ensures r.Ok? ==> r.value == w.(text := t)
    ensures r.Err? ==> r.fault == EditReadOnlyBuffer
  {
    if w.readOnly then Err(EditReadOnlyBuffer) else Ok(w.(text := t))
  }

  /** The write of a rendering into the buffer: lift the read-only flag
      just for the write, which then always succeeds, and leave the view
      read-only whatever it was before. */
  function Display(w: Window, lexed: Lexed): (r: Result<Window>)
    ensures r == Ok(Window(true, lexed.text, lexed.lexer, w.hover))
  {
    var w1 := w.(lexer := lexed.lexer, readOnly := false);
    match SetBufferText(w1, lexed.text)
    case Err(f) => Err(f)
    case Ok(w2) => Ok(w2.(readOnly := true))
  }

  /** `set_html_get_title`: render, write the rendered text into the buffer
      and hand back the title. Only an unknown node kind makes the call
      fail. */
  function SetHtmlGetTitle(w: Window, roots: seq<Node>): (r: Result<(Window, string)>)
    ensures r.Ok? <==> RecognisedAll(roots)
    ensures r.Ok? ==>
              var lexed := LexHtml(w.lexer, roots).value;
              && r.value.0 == Window(true, lexed.text, lexed.lexer, w.hover)
              && r.value.1 == lexed.title
    ensures r.Ok? ==> r.value.0.text == JoinLines(MergeLines(r.value.0.lexer.lines))
    ensures r.Ok? ==> r.value.0.lexer.anchors == w.lexer.anchors + AnchorsAll(roots)
    ensures r.Ok? ==> r.value.1 == LastOr(TitlesAll(roots), "")
  {
    var lexed :- LexHtml(w.lexer, roots);
    match Display(w, lexed)
    case Err(f) => Err(f)
    case Ok(w1) => Ok((w1, lexed.title))
  }

  /** `set_html_get_title` with the corrected rendering, which reads line
      feeds inside text as spaces: the same outcome, title and anchors, and a
      buffer whose lines are exactly the rendered lines, merged. */
  function SetHtmlGetTitleCorrected(w: Window, roots: seq<Node>): (r: Result<(Window, string)>)
    ensures r.Ok? <==> RecognisedAll(roots)
    ensures r.Ok? ==>
              var lexed := LexHtmlCorrected(w.lexer, roots).value;
              && r.value.0 == Window(true, lexed.text, lexed.lexer, w.hover)
              && r.value.1 == lexed.title
    ensures r.Ok? ==> SplitLines(r.value.0.text) == MergeLines(r.value.0.lexer.lines)
    ensures r.Ok? ==> r.value.0.lexer.anchors == SetHtmlGetTitle(w, roots).value.0.lexer.anchors
    ensures r.Ok? ==> r.value.1 == SetHtmlGetTitle(w, roots).value.1
  {
    var lexed :- LexHtmlCorrected(w.lexer, roots);
    match Display(w, lexed)
    case Err(f) => Err(f)
    case Ok(w1) => Ok((w1, lexed.title))
  }

  /** `get_url_under_cursor`: nothing when no anchor is hovered, else the
      `href` of the hovered anchor; the list index and the attribute lookup
      are unchecked and raise. */
  function GetUrlUnderCursor(w: Window): (r: Result<Option<string>>)
    ensures w.hover.None? ==> r == Ok(None)
    ensures w.hover.Some? && w.hover.value >= |w.lexer.anchors| ==> r == Err(IndexError)
    ensures w.hover.Some? && w.hover.value < |w.lexer.anchors| ==>
              var attrs := w.lexer.anchors[w.hover.value].attrs;
              r == if "href" in attrs then Ok(Some(attrs["href"])) else Err(KeyError)
  {
    match w.hover
    case None => Ok(None)
    case Some(i) =>
      if i >= |w.lexer.anchors| then Err(IndexError)
      else
        var anchor := w.lexer.anchors[i];
        if "href" in anchor.attrs then Ok(Some(anchor.attrs["href"])) else Err(KeyError)
  }

  // ----- the view as the toolkit drives it -----

  function ExplodeOne(f: Fragment): (r: seq<Fragment>)
    ensures |r| == |f.text|
    ensures forall k :: 0 <= k < |r| ==> r[k] == Fragment(f.style, [f.text[k]])
  {
    seq(|f.text|, k requires 0 <= k < |f.text| => Fragment(f.style, [f.text[k]]))
  }

  /** The toolkit's `explode_text_fragments`: one fragment per character,
      each with the style of the fragment it came from, so that fragment `k`
      is column `k` of the buffer line. */
  function Explode(line: Line): (r: seq<Fragment>)
    ensures |r| == |MergeLine(line)|
    ensures forall k :: 0 <= k < |r| ==> r[k].text == [MergeLine(line)[k]]
    ensures forall k :: 0 <= k < |r| ==> exists j :: 0 <= j < |line| && r[k].style == line[j].style
    decreases |line|
  {
    if line == [] then []
    else
      var init := line[..|line| - 1];
      var r := Explode(init) + ExplodeOne(line[|line| - 1]);
      assert forall j :: 0 <= j < |init| ==> init[j] == line[j];
      r
  }

  /** One hover pass over buffer line `lineno` with the cursor at
      (`cursorRow`, `cursorCol`): the toolkit fetches the rendered line, which
      raises past the last rendered line, and the processor updates the
      remembered anchor. */
  function HoverLine(w: Window, lineno: nat, cursorRow: nat, cursorCol: nat): (r: Result<Window>)
    ensures r.Ok? <==> lineno < |w.lexer.lines|
    ensures r.Ok? ==>
              r.value == w.(hover := ApplyTransformation(w.hover, lineno, cursorRow, cursorCol,
                                                        Explode(w.lexer.lines[lineno])).anchorIndex)
  {
    match GetLine(w.lexer, lineno)
    case Err(f) => Err(f)
    case Ok(line) =>
      Ok(w.(hover := ApplyTransformation(w.hover, lineno, cursorRow, cursorCol, Explode(line)).anchorIndex))
  }

  /** A style carries no anchor tag, or the number of one of `n` anchors. */
  predicate Resolves(style: string, n: nat) {
    StyleAnchor(style).None? || StyleAnchor(style).value < n
  }

  ghost predicate LinesResolve(lines: seq<Line>, n: nat) {
    forall i, j :: 0 <= i < |lines| && 0 <= j < |lines[i]| ==> Resolves(lines[i][j].style, n)
  }

  /** The view's invariant: every anchor tag in the rendered lines and the
      remembered anchor number name recorded anchors. */
  ghost predicate Valid(w: Window) {
    && |w.lexer.lines| > 0
    && LinesResolve(w.lexer.lines, |w.lexer.anchors|)
    && (w.hover.Some? ==> w.hover.value < |w.lexer.anchors|)
  }

  lemma ShortStyleHasNoAnchor(s: string)
    requires |s| < |AnchorPrefix|
    ensures StyleAnchor(s).None?
  {
    assert forall k :: 0 <= k <= |s| ==> MatchAt(s, k).None?;
  }

  lemma InitValid()
    ensures Valid(Init())
  {
    ShortStyleHasNoAnchor("");
  }

  /** Every fragment among `items` carries a style that resolves below `n`. */
  predicate PiecesResolve(items: seq<Item>, n: nat)
    decreases |items|
  {
    items == [] ||
    ((items[0].Piece? ==> Resolves(items[0].f.style, n)) && PiecesResolve(items[1..], n))
  }

  lemma {:induction false} PiecesResolveConcat(a: seq<Item>, b: seq<Item>, n: nat)
    requires PiecesResolve(a, n) && PiecesResolve(b, n)
    ensures PiecesResolve(a + b, n)
    decreases |a|
  {
    if a == [] {
      assert a + b == b;
    } else {
      PiecesResolveConcat(a[1..], b, n);
      assert (a + b)[0] == a[0];
      assert (a + b)[1..] == a[1..] + b;
    }
  }

  /** The style text inherits resolves below `m`: the outer style, and each
      open anchor's. */
  predicate Inherited(open: seq<nat>, base: string, m: nat) {
    Resolves(base, m) && forall k :: 0 <= k < |open| ==> open[k] < m
  }

  /** Every fragment the subtree emits resolves below `m` when the anchors
      met so far and those of the subtree number fewer than `m`, and the
      inherited style and the open anchors resolve below `m`. */
  lemma {:induction false} EmitResolves(e: Node, open: seq<nat>, base: string, n: nat, m: nat)
    requires n + |Anchors(e)| <= m
    requires Inherited(open, base, m)
    ensures PiecesResolve(Emit(e, open, base, n), m)
    decreases e, 1
  {
    match e
    case Tag(name, _, cs) =>
      if name == "a" {
        AnchorResolves(e, open, base, n, m);
      } else {
        TagResolves(e, open, base, n, m);
      }
    case Text(s) =>
      TextResolves(e, open, base, n, m);
    case Doctype =>
    case Other =>
  }

  lemma {:induction false} AnchorResolves(e: Node, open: seq<nat>, base: string, n: nat, m: nat)
    requires e.Tag? && e.name == "a"
    requires n + |Anchors(e)| <= m
    requires Inherited(open, base, m)
    ensures PiecesResolve(Emit(e, open, base, n), m)
    decreases e, 0
  {
    AnchorEmits(e, open, base, n);
    EmitAllResolves(e.children, open + [n], base, n + 1, m);
  }

  lemma {:induction false} TagResolves(e: Node, open: seq<nat>, base: string, n: nat, m: nat)
    requires e.Tag? && e.name != "a"
    requires n + |Anchors(e)| <= m
    requires Inherited(open, base, m)
    ensures PiecesResolve(Emit(e, open, base, n), m)
    decreases e, 0
  {
    assert Emit(e, open, base, n) == Token(e.name) + EmitAll(e.children, open, base, n);
    assert Anchors(e) == AnchorsAll(e.children);
    TokenResolves(e.name, m);
    EmitAllResolves(e.children, open, base, n, m);
    PiecesResolveConcat(Token(e.name), EmitAll(e.children, open, base, n), m);
  }

  /** The placeholder styles name no anchor. */
  lemma TokenResolves(name: string, m: nat)
    ensures PiecesResolve(Token(name), m)
  {
    ShortStyleHasNoAnchor(FormStyle);
    ShortStyleHasNoAnchor(InputStyle);
  }

  lemma TextResolves(e: Node, open: seq<nat>, base: string, n: nat, m: nat)
    requires e.Text?
    requires Inherited(open, base, m)
    ensures PiecesResolve(Emit(e, open, base, n), m)
  {
    if open != [] {
      AnchorStyleParses(open[|open| - 1], "");
      assert AnchorStyle(open[|open| - 1]) + "" == AnchorStyle(open[|open| - 1]);
    }
  }

  lemma {:induction false} EmitAllResolves(cs: seq<Node>, open: seq<nat>, base: string, n: nat, m: nat)
    requires n + |AnchorsAll(cs)| <= m
    requires Inherited(open, base, m)
    ensures PiecesResolve(EmitAll(cs, open, base, n), m)
    decreases cs, 2
  {
    if cs != [] {
      var n1 := n + |Anchors(cs[0])|;
      EmitAllCons(cs, open, base, n);
      EmitResolves(cs[0], open, base, n, m);
      EmitAllResolves(cs[1..], open, base, n1, m);
      PiecesResolveConcat(Emit(cs[0], open, base, n), EmitAll(cs[1..], open, base, n1), m);
    }
  }

  lemma {:induction false} LayoutResolves(lines: seq<Line>, items: seq<Item>, n: nat)
    requires |lines| > 0
    requires LinesResolve(lines, n)
    requires PiecesResolve(items, n)
    ensures LinesResolve(Layout(lines, items), n)
    decreases |items|
  {
    if items != [] {
      var l1: seq<Line> := Apply(lines, items[0]);
      var k := |lines| - 1;
      forall i: nat, j: nat | i < |l1| && j < |l1[i]| ensures Resolves(l1[i][j].style, n) {
        if i < k {
          assert l1[i] == l1[..k][i] == lines[..k][i] == lines[i];
        } else if items[0].Piece? {
          if i == k && j < |lines[k]| {
            assert l1[i][j] == lines[k][j];
          }
        } else if i == k {
          assert l1[i] == l1[..k + 1][i] == lines[i];
        }
      }
      LayoutResolves(l1, items[1..], n);
    }
  }

  /** Rendering into a view keeps it valid: every anchor tag written names a
      recorded anchor, and the remembered anchor number still names one
      because anchors are never dropped. */
  lemma SetHtmlKeepsValid(w: Window, roots: seq<Node>)
    requires Valid(w)
    requires SetHtmlGetTitle(w, roots).Ok?
    ensures Valid(SetHtmlGetTitle(w, roots).value.0)
  {
    var n := |w.lexer.anchors|;
    var m := n + |AnchorsAll(roots)|;
    ShortStyleHasNoAnchor("");
    assert StyleFor([], "") == "";
    EmitAllResolves(roots, [], "", n, m);
    LayoutResolves([[]], EmitAll(roots, [], "", n), m);
  }

  /** The corrected rendering keeps the view valid as well. */
  lemma SetHtmlCorrectedKeepsValid(w: Window, roots: seq<Node>)
    requires Valid(w)
    requires SetHtmlGetTitleCorrected(w, roots).Ok?
    ensures Valid(SetHtmlGetTitleCorrected(w, roots).value.0)
  {
    SetHtmlKeepsValid(w, roots);
    UnwrapKeepsResolving(LexHtml(w.lexer, roots).value.lexer.lines, |SetHtmlGetTitle(w, roots).value.0.lexer.anchors|);
  }

  /** Reading line feeds as spaces leaves every style as it was. */
  lemma UnwrapKeepsResolving(lines: seq<Line>, n: nat)
    requires LinesResolve(lines, n)
    ensures LinesResolve(UnwrapLines(lines), n)
  {
    var u: seq<Line> := UnwrapLines(lines);
    forall i: nat, j: nat | i < |u| && j < |u[i]| ensures Resolves(u[i][j].style, n) {
      assert u[i][j].style == lines[i][j].style;
    }
  }

  /** As written, a paragraph whose text holds a line feed leaves the buffer
      with a line the renderer does not have: drawing buffer line 2 of
      `<p>a\nb</p>` raises. */
  lemma NewlineTextBreaksHover(cursorRow: nat, cursorCol: nat)
    ensures var r := SetHtmlGetTitle(Init(), [Tag("p", map[], [Text("a\nb")])]);
            && r.Ok?
            && |SplitLines(r.value.0.text)| == 3
            && HoverLine(r.value.0, 2, cursorRow, cursorCol) == Err(IndexError)
  {
    NewlineTextMisaligns();
  }

  /** With the corrected rendering, every line the buffer shows has its
      rendered line: hovering any buffer line succeeds. */
  lemma BufferLinesHaveRenderedLines(w: Window, roots: seq<Node>, lineno: nat, cursorRow: nat, cursorCol: nat)
    requires SetHtmlGetTitleCorrected(w, roots).Ok?
    requires lineno < |SplitLines(SetHtmlGetTitleCorrected(w, roots).value.0.text)|
    ensures HoverLine(SetHtmlGetTitleCorrected(w, roots).value.0, lineno, cursorRow, cursorCol).Ok?
  {
  }

  /** A hover pass over any rendered line keeps the view valid: the anchor
      number it remembers is one the renderer recorded. */
  lemma HoverKeepsValid(w: Window, lineno: nat, cursorRow: nat, cursorCol: nat)
    requires Valid(w)
    requires lineno < |w.lexer.lines|
    ensures HoverLine(w, lineno, cursorRow, cursorCol).Ok?
    ensures Valid(HoverLine(w, lineno, cursorRow, cursorCol).value)
  {
    var line := w.lexer.lines[lineno];
    var frags := Explode(line);
    if cursorRow == lineno && cursorCol < |frags| {
      var j :| 0 <= j < |line| && frags[cursorCol].style == line[j].style;
      assert Resolves(line[j].style, |w.lexer.anchors|);
    }
  }

  /** In a valid view, asking for the link under the cursor never indexes
      past the anchor list: it gives nothing, an `href`, or a `KeyError` for
      an anchor without one. */
  lemma ValidUrlLookupInRange(w: Window)
    requires Valid(w)
    ensures GetUrlUnderCursor(w) != Err(IndexError)
  {
  }

  /** Exploding distributes over joining two lines end to end. */
  lemma {:induction false} ExplodeAppend(a: Line, b: Line)
    ensures Explode(a + b) == Explode(a) + Explode(b)
    decreases |b|
  {
    if b == [] {
      assert a + b == a;
    } else {
      var init := b[..|b| - 1];
      var one := ExplodeOne(b[|b| - 1]);
      var ab := a + b;
      assert ab[..|ab| - 1] == a + init;
      assert ab[|ab| - 1] == b[|b| - 1];
      assert Explode(ab) == Explode(a + init) + one;
      assert Explode(b) == Explode(init) + one;
      ExplodeAppend(a, init);
      AppendAssoc(Explode(a), Explode(init), one);
    }
  }

  lemma AppendAssoc<T>(a: seq<T>, b: seq<T>, d: seq<T>)
    ensures (a + b) + d == a + (b + d)
  {
  }

  /** Element `c` of the middle part of a three-part join. */
  lemma IndexMiddle<T>(a: seq<T>, b: seq<T>, d: seq<T>, c: nat)
    requires c < |b|
    ensures |a| + c < |(a + b) + d| && ((a + b) + d)[|a| + c] == b[c]
  {
  }

  /** Character `c` of fragment `j` of a line is column
      `|MergeLine(line[..j])| + c` of the exploded line, and carries that
      fragment's style: the cursor column picks the fragment the renderer
      pushed for the character under it. */
  lemma ExplodeAt(line: Line, j: nat, c: nat)
    requires j < |line| && c < |line[j].text|
    ensures |MergeLine(line[..j])| + c < |Explode(line)|
    ensures Explode(line)[|MergeLine(line[..j])| + c] == Fragment(line[j].style, [line[j].text[c]])
  {
    var pre := line[..j];
    var f := line[j];
    var post := line[j + 1..];
    assert line == (pre + [f]) + post;
    ExplodeAppend(pre + [f], post);
    ExplodeAppend(pre, [f]);
    assert [f][..0] == [];
    var one := ExplodeOne(f);
    assert Explode([f]) == one;
    var ex := Explode(pre);
    assert |ex| == |MergeLine(pre)|;
    var whole := (ex + one) + Explode(post);
    assert Explode(line) == whole;
    IndexMiddle(ex, one, Explode(post), c);
    assert one[c] == Fragment(f.style, [f.text[c]]);
  }

  /** A hover pass with the cursor on character `c` of a fragment the
      renderer pushed for anchor `k` remembers anchor `k` and changes nothing
      else of the view. */
  lemma HoverOnFragment(w: Window, lineno: nat, j: nat, c: nat, k: nat)
    requires lineno < |w.lexer.lines|
    requires j < |w.lexer.lines[lineno]| && c < |w.lexer.lines[lineno][j].text|
    requires w.lexer.lines[lineno][j].style == AnchorStyle(k)
    ensures HoverLine(w, lineno, lineno, |MergeLine(w.lexer.lines[lineno][..j])| + c)
            == Ok(w.(hover := Some(k)))
  {
    var line := w.lexer.lines[lineno];
    var col := |MergeLine(line[..j])| + c;
    var frags := Explode(line);
    ExplodeAt(line, j, c);
    assert frags[col].style == line[j].style;
    HoverRemembersAnchor(w.hover, lineno, col, frags, k);
    var t := ApplyTransformation(w.hover, lineno, lineno, col, frags);
    assert HoverLine(w, lineno, lineno, col) == Ok(w.(hover := t.anchorIndex));
  }

  /** With the cursor on character `c` of a fragment the renderer pushed for
      anchor `k`, the link under the cursor is anchor `k`'s `href`. */
  lemma HoveredLinkUrl(w: Window, lineno: nat, j: nat, c: nat, k: nat)
    requires Valid(w)
    requires lineno < |w.lexer.lines|
    requires j < |w.lexer.lines[lineno]| && c < |w.lexer.lines[lineno][j].text|
    requires w.lexer.lines[lineno][j].style == AnchorStyle(k)
    ensures k < |w.lexer.anchors|
    ensures var col := |MergeLine(w.lexer.lines[lineno][..j])| + c;
            var w1 := HoverLine(w, lineno, lineno, col).value;
            var attrs := w.lexer.anchors[k].attrs;
            GetUrlUnderCursor(w1) == if "href" in attrs then Ok(Some(attrs["href"])) else Err(KeyError)
  {
    var line := w.lexer.lines[lineno];
    HoverOnFragment(w, lineno, j, c, k);
    assert Resolves(line[j].style, |w.lexer.anchors|);
    AnchorStyleParses(k, "");
    assert AnchorStyle(k) + "" == AnchorStyle(k);
  }
}
