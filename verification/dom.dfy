/** The parsed document the renderer walks: an already-built element tree in
 which each node kind is its own variant. The renderer checks the kinds in
 the order the variants are listed here.
 */
module Dom {

  datatype Node =
    | Tag(name: string, attrs: map<string, string>, children: seq<Node>)
    | Text(s: string)      // a character-data node
    | Doctype              // the document type declaration
    | Other                // any node kind the renderer does not know

  /** An element node, as kept in the renderer's anchor list. */
  type Element = n: Node | n.Tag? witness Tag("", map[], [])

  /** `tag.text`: the concatenated text of every character-data node below
      `n`, in document order. */
  function TextContent(n: Node): string
    decreases n
  {
    match n
    case Tag(_, _, cs) => TextContentAll(cs)
    case Text(s) => s
    case Doctype => ""
    case Other => ""
  }

  function TextContentAll(cs: seq<Node>): string
    decreases cs
  {
    if cs == [] then "" else TextContent(cs[0]) + TextContentAll(cs[1..])
  }

  /** The `a` elements of the subtree rooted at `n`, in pre-order. */
  function Anchors(n: Node): seq<Element>
    decreases n
  {
    match n
    case Tag(name, _, cs) => (if name == "a" then [n] else []) + AnchorsAll(cs)
    case _ => []
  }

  function AnchorsAll(cs: seq<Node>): seq<Element>
    decreases cs
  {
    if cs == [] then [] else Anchors(cs[0]) + AnchorsAll(cs[1..])
  }

  /** Elements that start a new rendered line. */
  predicate IsBlock(name: string) {
    name == "p" || name == "div"
  }

  /** The number of `p` and `div` elements of the subtree rooted at `n`. */
  function Blocks(n: Node): nat
    decreases n
  {
    match n
    case Tag(name, _, cs) => (if IsBlock(name) then 1 else 0) + BlocksAll(cs)
    case _ => 0
  }

  function BlocksAll(cs: seq<Node>): nat
    decreases cs
  {
    if cs == [] then 0 else Blocks(cs[0]) + BlocksAll(cs[1..])
  }

  /** The text contents of the `title` elements of the subtree rooted at `n`,
      in pre-order. */
  function Titles(n: Node): seq<string>
    decreases n
  {
    match n
    case Tag(name, _, cs) =>
      (if name == "title" then [TextContent(n)] else []) + TitlesAll(cs)
    case _ => []
  }

  function TitlesAll(cs: seq<Node>): seq<string>
    decreases cs
  {
    if cs == [] then [] else Titles(cs[0]) + TitlesAll(cs[1..])
  }

  /** The last element of `s`, or `d` when `s` is empty. */
  function LastOr<T>(s: seq<T>, d: T): T {
    if s == [] then d else s[|s| - 1]
  }

  lemma LastOrConcat<T>(a: seq<T>, b: seq<T>, d: T)
    ensures LastOr(a + b, d) == LastOr(b, LastOr(a, d))
  {
  }

  /** No node of the subtree rooted at `n` is of an unknown kind. */
  predicate Recognised(n: Node)
    decreases n
  {
    match n
    case Tag(_, _, cs) => RecognisedAll(cs)
    case Other => false
    case _ => true
  }

  predicate RecognisedAll(cs: seq<Node>)
    decreases cs
  {
    cs == [] || (Recognised(cs[0]) && RecognisedAll(cs[1..]))
  }
}
