/** The document-to-lines renderer of canoe/ui/beautifulsoup_lexer.py.

 A depth-first walk over the element tree appends `(style, text)` fragments
 to the last of a list of lines, opens a new line for `p` and `div`, keeps
 the text of the last `title` element, and keeps every `a` element in an
 anchor list. The style of text inside an `a` names that element's position
 in the anchor list.

 The walk threads the style down the recursion as a parameter, as the source
 does. `Emit` is an independent reference: it states the same output as a
 stream of items, styling each text node after the nearest enclosing `a` on
 an explicit stack of open anchors, and `Layout` folds such a stream onto
 lines. `TraverseMatchesEmit` proves the walk equal to the reference.
 */
module BeautifulSoupLexer {
  import opened Wrappers
  import opened Text
  import opened Dom

  /** One `(style, text)` pair of a rendered line. */
  datatype Fragment = Fragment(style: string, text: string)

  type Line = seq<Fragment>

  /** The renderer's state: the rendered lines, the page title and every
      anchor element met so far. */
  datatype Lexer = Lexer(lines: seq<Line>, title: string, anchors: seq<Element>)

  const FormStyle := "class:form"
  const InputStyle := "#44ff00 underline"
  const AnchorPrefix := "class:anchor class:_"

  /** The style given to the text of the anchor at position `n`. */
  function AnchorStyle(n: nat): string {
    AnchorPrefix + Decimal(n)
  }

  /** The state a freshly built renderer starts in: one line holding one
      empty fragment, no title and no anchors. */
  function Init(): (st: Lexer)
    ensures st.lines == [[Fragment("", "")]] && st.anchors == [] && st.title == ""
  {
    Lexer([[Fragment("", "")]], "", [])
  }

  /** All fragments of `lines`, line after line. */
  function Flatten(lines: seq<Line>): seq<Fragment>
    decreases |lines|
  {
    if lines == [] then [] else Flatten(lines[..|lines| - 1]) + lines[|lines| - 1]
  }

  /** `lines[-1].append(f)` on a list of lines. */
  function PushFragment(lines: seq<Line>, f: Fragment): (r: seq<Line>)
    requires |lines| > 0
    ensures |r| == |lines|
    ensures r[..|lines| - 1] == lines[..|lines| - 1]
    ensures r[|lines| - 1] == lines[|lines| - 1] + [f]
    ensures Flatten(r) == Flatten(lines) + [f]
  {
    var r := lines[..|lines| - 1] + [lines[|lines| - 1] + [f]];
    assert r[..|r| - 1] == lines[..|lines| - 1];
    r
  }

  /** `lines.append([])` on a list of lines. */
  function OpenLine(lines: seq<Line>): (r: seq<Line>)
    ensures |r| == |lines| + 1
    ensures r[..|lines|] == lines && r[|lines|] == []
    ensures Flatten(r) == Flatten(lines)
  {
    var r := lines + [[]];
    assert r[..|r| - 1] == lines;
    r
  }

  /** `push`: one fragment more at the end of the last line; every other
      line and every earlier fragment unchanged. */
  function Push(st: Lexer, text: string, style: string): (r: Lexer)
    requires |st.lines| > 0
    ensures |r.lines| == |st.lines|
    ensures r.lines[..|st.lines| - 1] == st.lines[..|st.lines| - 1]
    ensures r.lines[|st.lines| - 1] == st.lines[|st.lines| - 1] + [Fragment(style, text)]
    ensures r.title == st.title && r.anchors == st.anchors
  {
    st.(lines := PushFragment(st.lines, Fragment(style, text)))
  }

  /** `new_line`: one empty line more at the end. */
  function NewLine(st: Lexer): (r: Lexer)
    ensures |r.lines| == |st.lines| + 1
    ensures r.lines[..|st.lines|] == st.lines && r.lines[|st.lines|] == []
    ensures r.title == st.title && r.anchors == st.anchors
  {
    st.(lines := OpenLine(st.lines))
  }

  /** `push_anchor`: records `tag` as the next anchor and returns the style
      naming its position, which is the anchor count before the call. */
  function PushAnchor(st: Lexer, tag: Element): (r: (Lexer, string))
    ensures r.0.anchors == st.anchors + [tag]
    ensures r.0.anchors[|st.anchors|] == tag
    ensures r.1 == AnchorStyle(|st.anchors|)
    ensures r.0.lines == st.lines && r.0.title == st.title
  {
    (st.(anchors := st.anchors + [tag]), AnchorStyle(|st.anchors|))
  }

  /** `traverse`: the depth-first walk over one node. A node of unknown kind
      raises and ends the walk. */
  function Traverse(st: Lexer, e: Node, style: string): (r: Result<Lexer>)
    requires |st.lines| > 0
    ensures r.Ok? ==> |r.value.lines| >= |st.lines|
    decreases e
  {
    match e
    case Tag(name, _, cs) =>
      if name == "title" then TraverseAll(st.(title := TextContent(e)), cs, style)
      else if name == "a" then
        var (st1, style1) := PushAnchor(st, e);
        TraverseAll(st1, cs, style1)
      else if name == "form" then TraverseAll(Push(st, "form", FormStyle), cs, style)
      else if name == "input" then TraverseAll(Push(st, "input", InputStyle), cs, style)
      else if IsBlock(name) then TraverseAll(NewLine(st), cs, style)
      else TraverseAll(st, cs, style)
    case Text(s) => Ok(Push(st, Strip(s), style))
    case Doctype => Ok(st)
    case Other => Err(RuntimeError)
  }

  /** The walk over a list of sibling nodes, left to right. */
  function TraverseAll(st: Lexer, cs: seq<Node>, style: string): (r: Result<Lexer>)
    requires |st.lines| > 0
    ensures r.Ok? ==> |r.value.lines| >= |st.lines|
    decreases cs
  {
    if cs == [] then Ok(st)
    else
      match Traverse(st, cs[0], style)
      case Err(f) => Err(f)
      case Ok(st1) => TraverseAll(st1, cs[1..], style)
  }

  // ----- the reference: an item stream and its layout -----

  /** What the walk does to the lines: push one fragment, or open a line. */
  datatype Item = Piece(f: Fragment) | Break

  /** The style for text whose open anchors (outermost first) are `open`:
      that of the nearest one, or `base` when there is none. */
  function StyleFor(open: seq<nat>, base: string): string {
    if open == [] then base else AnchorStyle(open[|open| - 1])
  }

  /** The items the subtree rooted at `e` produces when `open` lists the
      positions of the anchors enclosing it, `base` is the style outside
      every anchor, and `n` anchors were met before it. */
  function Emit(e: Node, open: seq<nat>, base: string, n: nat): seq<Item>
    decreases e
  {
    match e
    case Tag(name, _, cs) =>
      if name == "a" then EmitAll(cs, open + [n], base, n + 1)
      else Token(name) + EmitAll(cs, open, base, n)
    case Text(s) => [Piece(Fragment(StyleFor(open, base), Strip(s)))]
    case Doctype => []
    case Other => []
  }

  /** What an element other than `a` emits before its children: the
      placeholder text of a `form` or `input`, a line break for a block, or
      nothing. */
  function Token(name: string): seq<Item> {
    if name == "form" then [Piece(Fragment(FormStyle, "form"))]
    else if name == "input" then [Piece(Fragment(InputStyle, "input"))]
    else if IsBlock(name) then [Break]
    else []
  }

  function EmitAll(cs: seq<Node>, open: seq<nat>, base: string, n: nat): seq<Item>
    decreases cs
  {
    if cs == [] then []
    else Emit(cs[0], open, base, n) + EmitAll(cs[1..], open, base, n + |Anchors(cs[0])|)
  }

  /** The items of a non-empty list of siblings are those of the first
      followed by those of the rest, numbered after the first's anchors. */
  lemma EmitAllCons(cs: seq<Node>, open: seq<nat>, base: string, n: nat)
    requires cs != []
    ensures EmitAll(cs, open, base, n) ==
              Emit(cs[0], open, base, n) + EmitAll(cs[1..], open, base, n + |Anchors(cs[0])|)
    ensures |AnchorsAll(cs)| == |Anchors(cs[0])| + |AnchorsAll(cs[1..])|
  {
  }

  function Apply(lines: seq<Line>, it: Item): (r: seq<Line>)
    requires |lines| > 0
    ensures |r| > 0
  {
    match it
    case Piece(f) => PushFragment(lines, f)
    case Break => OpenLine(lines)
  }

  /** The lines that result from applying `items` to `lines` in order. */
  function Layout(lines: seq<Line>, items: seq<Item>): (r: seq<Line>)
    requires |lines| > 0
    ensures |r| > 0
    decreases |items|
  {
    if items == [] then lines else Layout(Apply(lines, items[0]), items[1..])
  }

  function BreakCount(items: seq<Item>): nat {
    if items == [] then 0 else (if items[0].Break? then 1 else 0) + BreakCount(items[1..])
  }

  /** The fragments of `items`, in order. */
  function Pieces(items: seq<Item>): seq<Fragment> {
    if items == [] then []
    else (if items[0].Piece? then [items[0].f] else []) + Pieces(items[1..])
  }

  lemma {:induction false} LayoutConcat(lines: seq<Line>, a: seq<Item>, b: seq<Item>)
    requires |lines| > 0
    ensures Layout(lines, a + b) == Layout(Layout(lines, a), b)
    decreases |a|
  {
    if a != [] {
      assert (a + b)[0] == a[0];
      assert (a + b)[1..] == a[1..] + b;
      LayoutConcat(Apply(lines, a[0]), a[1..], b);
    } else {
      assert a + b == b;
    }
  }

  lemma LayoutCons(lines: seq<Line>, it: Item, rest: seq<Item>)
    requires |lines| > 0
    ensures Layout(lines, [it] + rest) == Layout(Apply(lines, it), rest)
  {
    assert ([it] + rest)[0] == it;
    assert ([it] + rest)[1..] == rest;
  }

  /** `r` is the state a walk from `st` ends in when it emits `items`, meets
      the `title` elements whose texts are `titles` and the `a` elements
      `anchors`. */
  predicate Reaches(st: Lexer, r: Lexer, items: seq<Item>, titles: seq<string>, anchors: seq<Element>)
    requires |st.lines| > 0
  {
    && r.lines == Layout(st.lines, items)
    && r.title == LastOr(titles, st.title)
    && r.anchors == st.anchors + anchors
  }

  /** The walk is the reference: with the style of the nearest open anchor
      (or the inherited one) passed down, it succeeds exactly when every node
      is of a known kind, and then its lines are the layout of the emitted
      items, its anchors grow by the subtree's `a` elements in pre-order, and
      its title is that of the subtree's last `title` element, if any. */
  lemma {:induction false} TraverseMatchesEmit(st: Lexer, e: Node, open: seq<nat>, base: string)
    requires |st.lines| > 0
    ensures Traverse(st, e, StyleFor(open, base)).Ok? <==> Recognised(e)
    ensures Traverse(st, e, StyleFor(open, base)).Ok? ==>
              Reaches(st, Traverse(st, e, StyleFor(open, base)).value,
                      Emit(e, open, base, |st.anchors|), Titles(e), Anchors(e))
    decreases e
  {
    var style := StyleFor(open, base);
    var n := |st.anchors|;
    match e
    case Tag(name, _, cs) =>
      if name == "title" {
        TitleMatchesEmit(st, e, open, base);
      } else if name == "a" {
        AnchorMatchesEmit(st, e, open, base);
      } else if name == "form" || name == "input" || IsBlock(name) {
        TokenMatchesEmit(st, e, open, base);
      } else {
        assert Traverse(st, e, style) == TraverseAll(st, cs, style);
        assert Emit(e, open, base, n) == EmitAll(cs, open, base, n);
        assert Titles(e) == TitlesAll(cs);
        assert Anchors(e) == AnchorsAll(cs);
        TraverseAllMatchesEmit(st, cs, open, base);
      }
    case Text(s) =>
      LayoutCons(st.lines, Piece(Fragment(style, Strip(s))), []);
      assert st.anchors + [] == st.anchors;
    case Doctype =>
      assert st.anchors + [] == st.anchors;
    case Other =>
  }

  lemma {:induction false} TitleMatchesEmit(st: Lexer, e: Node, open: seq<nat>, base: string)
    requires |st.lines| > 0 && e.Tag? && e.name == "title"
    ensures Traverse(st, e, StyleFor(open, base)).Ok? <==> Recognised(e)
    ensures Traverse(st, e, StyleFor(open, base)).Ok? ==>
              Reaches(st, Traverse(st, e, StyleFor(open, base)).value,
                      Emit(e, open, base, |st.anchors|), Titles(e), Anchors(e))
    decreases e, 0
  {
    var style := StyleFor(open, base);
    var cs := e.children;
    var st1 := st.(title := TextContent(e));
    assert Traverse(st, e, style) == TraverseAll(st1, cs, style);
    assert Emit(e, open, base, |st.anchors|) == EmitAll(cs, open, base, |st.anchors|);
    assert Titles(e) == [TextContent(e)] + TitlesAll(cs);
    assert Anchors(e) == AnchorsAll(cs);
    TraverseAllMatchesEmit(st1, cs, open, base);
    LastOrConcat([TextContent(e)], TitlesAll(cs), st.title);
  }

  lemma {:induction false} AnchorMatchesEmit(st: Lexer, e: Node, open: seq<nat>, base: string)
    requires |st.lines| > 0 && e.Tag? && e.name == "a"
    ensures Traverse(st, e, StyleFor(open, base)).Ok? <==> Recognised(e)
    ensures Traverse(st, e, StyleFor(open, base)).Ok? ==>
              Reaches(st, Traverse(st, e, StyleFor(open, base)).value,
                      Emit(e, open, base, |st.anchors|), Titles(e), Anchors(e))
    decreases e, 0
  {
    var n := |st.anchors|;
    var st1 := st.(anchors := st.anchors + [e]);
    var r := TraverseAll(st1, e.children, StyleFor(open + [n], base));
    AnchorUnfolds(st, e, open, base);
    TraverseAllMatchesEmit(st1, e.children, open + [n], base);
    AnchorRecognised(e);
    if r.Ok? {
      AnchorReaches(st, e, open, base, r.value);
    }
  }

  /** An `a` element is known exactly when its children are. */
  lemma AnchorRecognised(e: Node)
    requires e.Tag? && e.name == "a"
    ensures Recognised(e) == RecognisedAll(e.children)
  {
  }

  /** Entering an `a` element records it and leaves the lines and the title
      alone. */
  lemma AnchorReaches(st: Lexer, e: Element, open: seq<nat>, base: string, r: Lexer)
    requires |st.lines| > 0 && e.name == "a"
    requires Reaches(st.(anchors := st.anchors + [e]), r, EmitAll(e.children, open + [|st.anchors|], base, |st.anchors| + 1),
                     TitlesAll(e.children), AnchorsAll(e.children))
    ensures Reaches(st, r, Emit(e, open, base, |st.anchors|), Titles(e), Anchors(e))
  {
    AnchorEmits(e, open, base, |st.anchors|);
    ReachesPastAnchor(st, e, r, EmitAll(e.children, open + [|st.anchors|], base, |st.anchors| + 1),
                      TitlesAll(e.children), AnchorsAll(e.children));
  }

  lemma ReachesPastAnchor(st: Lexer, e: Element, r: Lexer, items: seq<Item>, titles: seq<string>, anchors: seq<Element>)
    requires |st.lines| > 0
    requires Reaches(st.(anchors := st.anchors + [e]), r, items, titles, anchors)
    ensures Reaches(st, r, items, titles, [e] + anchors)
  {
    assert (st.anchors + [e]) + anchors == st.anchors + ([e] + anchors);
  }

  /** One step of the walk into an `a` element. */
  lemma AnchorUnfolds(st: Lexer, e: Node, open: seq<nat>, base: string)
    requires |st.lines| > 0 && e.Tag? && e.name == "a"
    ensures Traverse(st, e, StyleFor(open, base)) ==
              TraverseAll(st.(anchors := st.anchors + [e]), e.children, StyleFor(open + [|st.anchors|], base))
  {
  }

  /** One step of the reference into an `a` element. */
  lemma AnchorEmits(e: Node, open: seq<nat>, base: string, n: nat)
    requires e.Tag? && e.name == "a"
    ensures Emit(e, open, base, n) == EmitAll(e.children, open + [n], base, n + 1)
    ensures Titles(e) == TitlesAll(e.children)
    ensures Anchors(e) == [e] + AnchorsAll(e.children)
  {
  }

  lemma {:induction false} TokenMatchesEmit(st: Lexer, e: Node, open: seq<nat>, base: string)
    requires |st.lines| > 0 && e.Tag?
    requires e.name == "form" || e.name == "input" || IsBlock(e.name)
    ensures Traverse(st, e, StyleFor(open, base)).Ok? <==> Recognised(e)
    ensures Traverse(st, e, StyleFor(open, base)).Ok? ==>
              Reaches(st, Traverse(st, e, StyleFor(open, base)).value,
                      Emit(e, open, base, |st.anchors|), Titles(e), Anchors(e))
    decreases e, 0
  {
    var style := StyleFor(open, base);
    var n := |st.anchors|;
    var cs := e.children;
    var it :=
      if e.name == "form" then Piece(Fragment(FormStyle, "form"))
      else if e.name == "input" then Piece(Fragment(InputStyle, "input"))
      else Break;
    var st1 := st.(lines := Apply(st.lines, it));
    assert Traverse(st, e, style) == TraverseAll(st1, cs, style);
    assert Emit(e, open, base, n) == [it] + EmitAll(cs, open, base, n);
    assert Titles(e) == TitlesAll(cs);
    assert Anchors(e) == AnchorsAll(cs);
    TraverseAllMatchesEmit(st1, cs, open, base);
    LayoutCons(st.lines, it, EmitAll(cs, open, base, n));
  }

  lemma {:induction false} TraverseAllMatchesEmit(st: Lexer, cs: seq<Node>, open: seq<nat>, base: string)
    requires |st.lines| > 0
    ensures TraverseAll(st, cs, StyleFor(open, base)).Ok? <==> RecognisedAll(cs)
    ensures TraverseAll(st, cs, StyleFor(open, base)).Ok? ==>
              Reaches(st, TraverseAll(st, cs, StyleFor(open, base)).value,
                      EmitAll(cs, open, base, |st.anchors|), TitlesAll(cs), AnchorsAll(cs))
    decreases cs
  {
    if cs == [] {
      assert st.anchors + [] == st.anchors;
    } else {
      var style := StyleFor(open, base);
      TraverseMatchesEmit(st, cs[0], open, base);
      var r0 := Traverse(st, cs[0], style);
      if r0.Ok? {
        ConsMatchesEmit(st, cs, open, base);
      } else {
        assert TraverseAll(st, cs, style) == Err(r0.fault);
        assert !RecognisedAll(cs);
      }
    }
  }

  /** The step of `TraverseAllMatchesEmit` past a first child walked
      successfully. */
  lemma {:induction false} ConsMatchesEmit(st: Lexer, cs: seq<Node>, open: seq<nat>, base: string)
    requires |st.lines| > 0 && cs != []
    requires Traverse(st, cs[0], StyleFor(open, base)).Ok?
    requires Reaches(st, Traverse(st, cs[0], StyleFor(open, base)).value,
                     Emit(cs[0], open, base, |st.anchors|), Titles(cs[0]), Anchors(cs[0]))
    requires Recognised(cs[0])
    ensures TraverseAll(st, cs, StyleFor(open, base)).Ok? <==> RecognisedAll(cs)
    ensures TraverseAll(st, cs, StyleFor(open, base)).Ok? ==>
              Reaches(st, TraverseAll(st, cs, StyleFor(open, base)).value,
                      EmitAll(cs, open, base, |st.anchors|), TitlesAll(cs), AnchorsAll(cs))
    decreases cs, 0
  {
    var style := StyleFor(open, base);
    var n := |st.anchors|;
    var st1 := Traverse(st, cs[0], style).value;
    var n1 := n + |Anchors(cs[0])|;
    assert TraverseAll(st, cs, style) == TraverseAll(st1, cs[1..], style);
    assert |st1.anchors| == n1;
    TraverseAllMatchesEmit(st1, cs[1..], open, base);
    var e0 := Emit(cs[0], open, base, n);
    var e1 := EmitAll(cs[1..], open, base, n1);
    assert EmitAll(cs, open, base, n) == e0 + e1;
    assert TitlesAll(cs) == Titles(cs[0]) + TitlesAll(cs[1..]);
    assert AnchorsAll(cs) == Anchors(cs[0]) + AnchorsAll(cs[1..]);
    assert RecognisedAll(cs) == RecognisedAll(cs[1..]);
    var rest := TraverseAll(st1, cs[1..], style);
    if rest.Ok? {
      ReachesConcat(st, st1, rest.value, e0, e1, Titles(cs[0]), TitlesAll(cs[1..]),
                    Anchors(cs[0]), AnchorsAll(cs[1..]));
    }
  }

  /** Walking two item streams one after the other is walking their
      concatenation. */
  lemma ReachesConcat(st: Lexer, st1: Lexer, st2: Lexer, e0: seq<Item>, e1: seq<Item>,
                      t0: seq<string>, t1: seq<string>, a0: seq<Element>, a1: seq<Element>)
    requires |st.lines| > 0
    requires Reaches(st, st1, e0, t0, a0)
    requires Reaches(st1, st2, e1, t1, a1)
    ensures Reaches(st, st2, e0 + e1, t0 + t1, a0 + a1)
  {
    LayoutConcat(st.lines, e0, e1);
    LastOrConcat(t0, t1, st.title);
    assert st1.anchors + a1 == st.anchors + (a0 + a1);
  }


  // ----- consequences for the rendered lines -----

  lemma BreakCountConcat(a: seq<Item>, b: seq<Item>)
    ensures BreakCount(a + b) == BreakCount(a) + BreakCount(b)
  {
    if a != [] {
      assert (a + b)[1..] == a[1..] + b;
      BreakCountConcat(a[1..], b);
    } else {
      assert a + b == b;
    }
  }

  /** The items of a subtree open exactly one line per `p` or `div`. */
  lemma {:induction false} EmitBlocks(e: Node, open: seq<nat>, base: string, n: nat)
    ensures BreakCount(Emit(e, open, base, n)) == Blocks(e)
    decreases e
  {
    match e
    case Tag(name, _, cs) =>
      if name == "a" {
        EmitAllBlocks(cs, open + [n], base, n + 1);
      } else {
        BreakCountConcat(Token(name), EmitAll(cs, open, base, n));
        EmitAllBlocks(cs, open, base, n);
      }
    case Text(_) =>
    case Doctype =>
    case Other =>
  }

  lemma {:induction false} EmitAllBlocks(cs: seq<Node>, open: seq<nat>, base: string, n: nat)
    ensures BreakCount(EmitAll(cs, open, base, n)) == BlocksAll(cs)
    decreases cs
  {
    if cs != [] {
      var n1 := n + |Anchors(cs[0])|;
      EmitBlocks(cs[0], open, base, n);
      EmitAllBlocks(cs[1..], open, base, n1);
      BreakCountConcat(Emit(cs[0], open, base, n), EmitAll(cs[1..], open, base, n1));
    }
  }

  /** Applying items only ever appends: the line count grows by the number
      of breaks, every line but the last is kept, the last line keeps its
      fragments as a prefix, and the fragments pushed follow all earlier
      fragments in item order. */
  lemma LayoutShape(lines: seq<Line>, items: seq<Item>)
    requires |lines| > 0
    ensures |Layout(lines, items)| == |lines| + BreakCount(items)
    ensures Layout(lines, items)[..|lines| - 1] == lines[..|lines| - 1]
    ensures lines[|lines| - 1] <= Layout(lines, items)[|lines| - 1]
    ensures Flatten(Layout(lines, items)) == Flatten(lines) + Pieces(items)
  {
    LayoutCount(lines, items);
    LayoutKeepsEarlier(lines, items);
    LayoutFlatten(lines, items);
  }

  lemma {:induction false} LayoutCount(lines: seq<Line>, items: seq<Item>)
    requires |lines| > 0
    ensures |Layout(lines, items)| == |lines| + BreakCount(items)
    decreases |items|
  {
    if items != [] {
      LayoutCount(Apply(lines, items[0]), items[1..]);
    }
  }

  lemma {:induction false} LayoutKeepsEarlier(lines: seq<Line>, items: seq<Item>)
    requires |lines| > 0
    ensures |Layout(lines, items)| >= |lines|
    ensures Layout(lines, items)[..|lines| - 1] == lines[..|lines| - 1]
    ensures lines[|lines| - 1] <= Layout(lines, items)[|lines| - 1]
    decreases |items|
  {
    if items != [] {
      var k := |lines| - 1;
      var l1 := Apply(lines, items[0]);
      var out := Layout(l1, items[1..]);
      LayoutKeepsEarlier(l1, items[1..]);
      if items[0].Piece? {
        assert out[..k] == l1[..k] == lines[..k];
        assert lines[k] <= l1[k] <= out[k];
      } else {
        assert l1[..k + 1] == lines;
        assert out[..k + 1] == l1[..k + 1];
        assert out[..k] == out[..k + 1][..k];
        assert out[k] == out[..k + 1][k];
      }
    }
  }

  lemma {:induction false} LayoutFlatten(lines: seq<Line>, items: seq<Item>)
    requires |lines| > 0
    ensures Flatten(Layout(lines, items)) == Flatten(lines) + Pieces(items)
    decreases |items|
  {
    if items != [] {
      LayoutFlatten(Apply(lines, items[0]), items[1..]);
    }
  }

  /** `merge_line`: the texts of a line's fragments, concatenated. */
  function MergeLine(line: Line): string
    decreases |line|
  {
    if line == [] then "" else MergeLine(line[..|line| - 1]) + line[|line| - 1].text
  }

  function MergeLines(lines: seq<Line>): (r: seq<string>)
    ensures |r| == |lines|
    ensures forall i :: 0 <= i < |lines| ==> r[i] == MergeLine(lines[i])
  {
    seq(|lines|, i requires 0 <= i < |lines| => MergeLine(lines[i]))
  }

  /** What one `lex_html` call hands back: the renderer's new state, the
      buffer text and the title. */
  datatype Lexed = Lexed(lexer: Lexer, text: string, title: string)

  /** `lex_html` after parsing: reset the lines and the title (not the
      anchors), walk the top-level nodes with no style, and join the merged
      lines with line feeds. */
  function LexHtml(st: Lexer, roots: seq<Node>): (r: Result<Lexed>)
    ensures r.Ok? <==> RecognisedAll(roots)
    ensures r.Ok? ==> r.value.lexer.anchors == st.anchors + AnchorsAll(roots)
    ensures r.Ok? ==> r.value.title == r.value.lexer.title == LastOr(TitlesAll(roots), "")
    ensures r.Ok? ==> r.value.lexer.lines == Layout([[]], EmitAll(roots, [], "", |st.anchors|))
    ensures r.Ok? ==> |r.value.lexer.lines| == BlocksAll(roots) + 1
    ensures r.Ok? ==> r.value.text == JoinLines(MergeLines(r.value.lexer.lines))
  {
    var st0 := st.(lines := [[]], title := "");
    assert StyleFor([], "") == "";
    TraverseAllMatchesEmit(st0, roots, [], "");
    LayoutShape([[]], EmitAll(roots, [], "", |st.anchors|));
    EmitAllBlocks(roots, [], "", |st.anchors|);
    var st1 :- TraverseAll(st0, roots, "");
    Ok(Lexed(st1, JoinLines(MergeLines(st1.lines)), st1.title))
  }

  /** `get_line`, the per-line lookup the text buffer calls: line `i` of the
      rendering, or an `IndexError` past the last line. */
  function GetLine(st: Lexer, i: nat): (r: Result<Line>)
    ensures i < |st.lines| <==> r.Ok?
    ensures r.Ok? ==> r.value == st.lines[i]
    ensures r.Err? ==> r.fault == IndexError
  {
    if i < |st.lines| then Ok(st.lines[i]) else Err(IndexError)
  }

  lemma {:induction false} FlattenHas(lines: seq<Line>, i: nat, j: nat)
    requires i < |lines| && j < |lines[i]|
    ensures lines[i][j] in Flatten(lines)
    decreases |lines|
  {
    if i < |lines| - 1 {
      FlattenHas(lines[..|lines| - 1], i, j);
    }
  }

  lemma {:induction false} MergeLineNoNewline(line: Line)
    requires forall j :: 0 <= j < |line| ==> NoNewline(line[j].text)
    ensures NoNewline(MergeLine(line))
    decreases |line|
  {
    if line != [] {
      MergeLineNoNewline(line[..|line| - 1]);
    }
  }

  /** When no rendered fragment holds a line feed, the lines the buffer shows
      for the joined text are exactly the merged rendered lines, so buffer
      line `i` is rendered from `lines[i]`. */
  lemma LexedLinesAlign(st: Lexer, roots: seq<Node>)
    requires LexHtml(st, roots).Ok?
    requires forall f :: f in Flatten(LexHtml(st, roots).value.lexer.lines) ==> NoNewline(f.text)
    ensures SplitLines(LexHtml(st, roots).value.text) == MergeLines(LexHtml(st, roots).value.lexer.lines)
  {
    var lines := LexHtml(st, roots).value.lexer.lines;
    var ms := MergeLines(lines);
    forall i | 0 <= i < |ms| ensures NoNewline(ms[i]) {
      forall j | 0 <= j < |lines[i]| ensures NoNewline(lines[i][j].text) {
        FlattenHas(lines, i, j);
      }
      MergeLineNoNewline(lines[i]);
    }
    SplitJoin(ms);
  }

  // ----- line feeds inside text nodes -----

  /** A document whose paragraph text holds a line feed, as HTML source
      text usually does: the buffer shows three lines (an empty one, "a" and
      "b") while the renderer has two, so the buffer's request for its last
      line raises, and line 1 is drawn with the styles of a line holding
      both "a" and "b". */
  lemma NewlineTextMisaligns()
    ensures var roots := [Tag("p", map[], [Text("a\nb")])];
            && LexHtml(Init(), roots).Ok?
            && |LexHtml(Init(), roots).value.lexer.lines| == 2
            && |SplitLines(LexHtml(Init(), roots).value.text)| == 3
            && GetLine(LexHtml(Init(), roots).value.lexer, 2) == Err(IndexError)
  {
    var roots := [Tag("p", map[], [Text("a\nb")])];
    var f := Fragment("", "a\nb");
    assert RecognisedAll(roots) by {
      assert Recognised(roots[0]);
    }
    var lexed := LexHtml(Init(), roots).value;
    ParagraphItems();
    ParagraphLayout(f);
    assert lexed.lexer.lines == [[], [f]];
    JoinedTwoLines(lexed.lexer.lines);
    SplitLinesCount(lexed.text);
  }

  /** The items of the paragraph of `NewlineTextMisaligns`. */
  lemma ParagraphItems()
    ensures EmitAll([Tag("p", map[], [Text("a\nb")])], [], "", 0) == [Break, Piece(Fragment("", "a\nb"))]
  {
    var text := Text("a\nb");
    var p := Tag("p", map[], [text]);
    StripNoEdgeSpace("a\nb");
    assert StyleFor([], "") == "";
    assert Emit(text, [], "", 0) == [Piece(Fragment("", "a\nb"))];
    assert EmitAll([text], [], "", 0) == Emit(text, [], "", 0) + EmitAll([], [], "", 0);
    assert Emit(p, [], "", 0) == [Break] + EmitAll([text], [], "", 0);
    assert EmitAll([p], [], "", 0) == Emit(p, [], "", 0) + EmitAll([], [], "", |Anchors(p)|);
  }

  /** Opening a line and pushing `f` onto an empty rendering. */
  lemma ParagraphLayout(f: Fragment)
    ensures Layout([[]], [Break, Piece(f)]) == [[], [f]]
  {
    var l1 := Apply([[]], Break);
    assert l1 == [[], []];
    var l2 := Apply(l1, Piece(f));
    assert l2[0] == l2[..1][0] == [];
    assert l2[1] == [] + [f] == [f];
    assert |l2| == 2;
    assert l2 == [[], [f]];
    assert Layout([[]], [Break, Piece(f)]) == Layout(l1, [Piece(f)]);
    assert Layout(l1, [Piece(f)]) == Layout(l2, []);
  }

  /** The buffer text of the lines of `NewlineTextMisaligns` holds two line
      feeds. */
  lemma JoinedTwoLines(lines: seq<Line>)
    requires lines == [[], [Fragment("", "a\nb")]]
    ensures NewlineCount(JoinLines(MergeLines(lines))) == 2
  {
    assert MergeLine(lines[0]) == "";
    assert lines[1][..0] == [];
    assert MergeLine(lines[1]) == MergeLine([]) + "a\nb";
    assert MergeLines(lines)[1] == "a\nb";
    assert MergeLines(lines) == ["", "a\nb"];
    assert JoinLines(["", "a\nb"]) == "\na\nb";
    assert multiset("\na\nb")['\n'] == 2;
  }

  function UnwrapLine(line: Line): (r: Line)
    ensures |r| == |line|
    ensures forall j :: 0 <= j < |line| ==> r[j].style == line[j].style && r[j].text == Unwrap(line[j].text)
  {
    seq(|line|, j requires 0 <= j < |line| => Fragment(line[j].style, Unwrap(line[j].text)))
  }

  /** The rendered lines with every line feed inside a fragment read as a
      space, the way HTML treats a line break inside running text. */
  function UnwrapLines(lines: seq<Line>): (r: seq<Line>)
    ensures |r| == |lines|
    ensures forall i :: 0 <= i < |lines| ==> r[i] == UnwrapLine(lines[i])
  {
    seq(|lines|, i requires 0 <= i < |lines| => UnwrapLine(lines[i]))
  }

  /** `lex_html` with text-node line feeds read as spaces: the same lines,
      styles, title and anchors, and a buffer text whose lines are exactly
      the merged rendered lines, for every document. */
  function LexHtmlCorrected(st: Lexer, roots: seq<Node>): (r: Result<Lexed>)
    ensures r.Ok? <==> RecognisedAll(roots)
    ensures r.Ok? ==>
              var w := LexHtml(st, roots).value;
              && r.value.lexer == w.lexer.(lines := UnwrapLines(w.lexer.lines))
              && r.value.title == w.title
    ensures r.Ok? ==> |r.value.lexer.lines| == BlocksAll(roots) + 1
    ensures r.Ok? ==> SplitLines(r.value.text) == MergeLines(r.value.lexer.lines)
  {
    match LexHtml(st, roots)
    case Err(f) => Err(f)
    case Ok(w) =>
      var lines := UnwrapLines(w.lexer.lines);
      var ms := MergeLines(lines);
      forall i | 0 <= i < |ms| ensures NoNewline(ms[i]) {
        MergeLineNoNewline(lines[i]);
      }
      SplitJoin(ms);
      Ok(Lexed(w.lexer.(lines := lines), JoinLines(ms), w.title))
  }

  /** On documents whose text holds no line feed the correction changes
      nothing. */
  lemma CorrectedAgreesWithoutNewlines(st: Lexer, roots: seq<Node>)
    requires LexHtml(st, roots).Ok?
    requires forall f :: f in Flatten(LexHtml(st, roots).value.lexer.lines) ==> NoNewline(f.text)
    ensures LexHtmlCorrected(st, roots) == LexHtml(st, roots)
  {
    var w := LexHtml(st, roots).value;
    var lines := w.lexer.lines;
    forall i | 0 <= i < |lines| ensures UnwrapLine(lines[i]) == lines[i] {
      forall j | 0 <= j < |lines[i]| ensures UnwrapLine(lines[i])[j] == lines[i][j] {
        FlattenHas(lines, i, j);
        UnwrapNewlineFree(lines[i][j].text);
      }
    }
    assert UnwrapLines(lines) == lines;
  }
}
