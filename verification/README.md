# canoe, modelled in Dafny

canoe is a terminal web browser. This project models its core:

- the renderer that turns a parsed HTML tree into styled lines, a title and
  a list of anchors (`BeautifulSoupLexer`, `lexer.dfy`);
- the hover processor that finds the anchor tag under the cursor and marks
  that link reversed (`HoverProcessor`, `hover.dfy`);
- the document view that ties the two together and looks up the link under
  the cursor (`ViewWindow`, `view_window.dfy`);
- the event dispatcher with its queue, handler registry and worker loop
  (`EventDispatcher`, `event.dfy`);
- the observer list `client.Event` (`ClientEvent`, `client_event.dfy`);
- the one-shot accept handler of the yes/no prompt (`YesNoPrompt`, `prompt.dfy`).

Support modules hold the rest. `Wrappers` has `Option` and `Result`;
Python's exceptions become `Err` values naming the exception class. `Text`
models `str.strip`, decimal numerals, and joining and splitting on line
feeds. `Dom` is the parsed document tree, with reference counts over it
(anchors, titles, block elements, recognised node kinds).

The renderer's recursive walk (`Traverse`) threads the current style down
the tree, as the code does. It is proved equal to an independent reference.
The reference emits a stream of items (a styled fragment or a line break)
from the stack of open anchors (`Emit`), then lays that stream out into lines
(`Layout`). From that equality follow the shape of the rendering and the
round trip between the style the renderer writes for anchor `n` and the
number the hover processor reads back.

The hover processor's regular expression `\bclass:anchor class:_(\d+)\b`
is replaced by a hand-written recogniser. `MatchAt` matches at one index and
`Search` finds the leftmost match.

The worker loop is modelled as a step function (`WorkerStep`) and a method
that runs it until the queue is empty or the worker dies (`Drain`). Both are
related to reference definitions of the handler calls and results that
draining a queue produces.

Handlers, callbacks and the text toolkit's buffer are code this model cannot
see. A handler or callback is an identity, and whether a call of it returns
or raises is a parameter. The buffer's read-only rule is `SetBufferText`.

Two defects found in the source are modelled twice: once as written, and
once corrected (see "## Findings"). The view renders as written
(`SetHtmlGetTitle`) and, separately, with the corrected renderer
(`SetHtmlGetTitleCorrected`); a lemma exhibits each defect on the as-written
code, and the intended property is proved of the corrected one.

## Model

| member | source | states |
|---|---|---|
| Text.Strip | canoe/ui/beautifulsoup_lexer.py:51 | the stripped text is an infix of the input with only white space around it, and neither starts nor ends with white space |
| Text.Decimal | canoe/ui/beautifulsoup_lexer.py:32 | the numeral written into an anchor style is a non-empty run of digits with no leading zero, and exactly `0` for 0 |
| Text.DecimalRoundTrip | canoe/ui/hover_processor.py:43 | reading back the digits written for `n` gives `n` |
| Text.SplitJoin | canoe/ui/beautifulsoup_lexer.py:68 | splitting the line-feed join of line-feed-free lines gives the lines back |
| Text.JoinSplit | canoe/ui/beautifulsoup_lexer.py:68 | joining the pieces of a split text gives the text back |
| Text.SplitLinesCount | canoe/ui/beautifulsoup_lexer.py:68 | a text shows one line more than it has line feeds |
| BeautifulSoupLexer.Init | canoe/ui/beautifulsoup_lexer.py:10-15 | a new renderer has exactly one line holding one empty fragment, no title and no anchors |
| BeautifulSoupLexer.GetLine | canoe/ui/beautifulsoup_lexer.py:20-21 | line `i` of the rendering exactly when `i` is below the line count, an IndexError otherwise |
| BeautifulSoupLexer.Push | canoe/ui/beautifulsoup_lexer.py:23-24 | the fragment is appended to the last line; every other line, the title and the anchors are unchanged |
| BeautifulSoupLexer.NewLine | canoe/ui/beautifulsoup_lexer.py:26-27 | one empty line is appended; earlier lines, title and anchors are unchanged |
| BeautifulSoupLexer.PushAnchor | canoe/ui/beautifulsoup_lexer.py:29-32 | the tag is recorded at the position equal to the anchor count before the call, and the returned style names that position; lines and title are unchanged |
| BeautifulSoupLexer.Traverse | canoe/ui/beautifulsoup_lexer.py:34-56 | a successful walk never removes lines |
| BeautifulSoupLexer.TraverseMatchesEmit | canoe/ui/beautifulsoup_lexer.py:34-56 | the walk succeeds exactly when every node is of a known kind; its lines are then the layout of the reference items, its anchors grow by the subtree's `a` elements in pre-order, and its title is that of the last `title` element |
| BeautifulSoupLexer.TitleMatchesEmit | canoe/ui/beautifulsoup_lexer.py:38-39 | a `title` element sets the title to its own text, which only a `title` nested inside it overrides, and its children are walked with the same style |
| BeautifulSoupLexer.AnchorMatchesEmit | canoe/ui/beautifulsoup_lexer.py:40-41 | an `a` element is recorded before its children, and its children are walked with its own anchor style, which replaces the inherited one |
| BeautifulSoupLexer.TokenMatchesEmit | canoe/ui/beautifulsoup_lexer.py:42-47 | `form` and `input` push their labelled fragment and `p` and `div` open a line before their children are walked |
| BeautifulSoupLexer.TraverseAllMatchesEmit | canoe/ui/beautifulsoup_lexer.py:48-49 | the walk over siblings is the reference over them, left to right, and fails exactly when one of them is unknown |
| BeautifulSoupLexer.EmitAllBlocks | canoe/ui/beautifulsoup_lexer.py:46-47 | the reference emits one line break per `p` or `div` element of the document |
| BeautifulSoupLexer.LayoutCount | canoe/ui/beautifulsoup_lexer.py:24-27 | laying out items adds exactly one line per line break |
| BeautifulSoupLexer.LexHtml | canoe/ui/beautifulsoup_lexer.py:58-68 | fails exactly on an unknown node kind; otherwise keeps the earlier anchors and appends the document's, takes the last title or the empty one, renders one line per block element plus one, and returns the line-feed join of the merged lines |
| BeautifulSoupLexer.LexedLinesAlign | canoe/ui/beautifulsoup_lexer.py:65-68 | when no fragment holds a line feed, the lines of the returned text are exactly the merged rendered lines |
| BeautifulSoupLexer.NewlineTextMisaligns | canoe/ui/beautifulsoup_lexer.py:50-51 | for `<p>a\nb</p>` the text shows three lines, the renderer has two, and asking for line 2 raises IndexError |
| BeautifulSoupLexer.LexHtmlCorrected | canoe/ui/beautifulsoup_lexer.py:58-68 | same outcome, styles, title and anchors as the source's `lex_html`, and the lines of the returned text are the merged rendered lines for every document |
| BeautifulSoupLexer.CorrectedAgreesWithoutNewlines | canoe/ui/beautifulsoup_lexer.py:58-68 | on documents whose text holds no line feed the corrected rendering is the source's |
| HoverProcessor.MatchAt | canoe/ui/hover_processor.py:6 | there is a match at `i` exactly when the prefix occurs at `i` after a word boundary and is followed by a run of digits that ends at a word boundary; the match covers prefix and digits, and its number is the value of those digits |
| HoverProcessor.Search | canoe/ui/hover_processor.py:41 | the match found is a match, and none starts earlier; when none is found there is no match at any index |
| HoverProcessor.Highlight | canoe/ui/hover_processor.py:44-48 | a fragment's style gets ` reverse ` appended exactly when it contains the matched text; texts are unchanged |
| HoverProcessor.ApplyTransformation | canoe/ui/hover_processor.py:14-52 | off the cursor line or past its end nothing changes; with no anchor tag under the cursor the anchor is forgotten; otherwise the anchor number is remembered and each fragment containing the matched tag is reversed |
| HoverProcessor.AnchorStyleParses | canoe/ui/hover_processor.py:6 | the style `push_anchor` returns for `n`, followed by anything that does not start with a word character, is matched from its first character and yields `n` |
| HoverProcessor.PaddedAnchorStyleParses | canoe/ui/hover_processor.py:6 | the same after a leading blank, with the match starting at index 1 |
| HoverProcessor.PushAnchorRoundTrip | canoe/ui/hover_processor.py:41-43 | the number read from the style `push_anchor` returns indexes the anchor it just recorded |
| HoverProcessor.PatternUnitTest | tests/test_re.py:12-15 | the pattern finds a match in ` class:anchor class:_0 `, with number 0 |
| HoverProcessor.HoverRemembersAnchor | canoe/ui/hover_processor.py:37-42 | with the cursor on a fragment styled for anchor `n`, `n` becomes the remembered anchor |
| HoverProcessor.HoverOnAnchor | canoe/ui/hover_processor.py:37-48 | with the cursor on a fragment styled for anchor `n`, `n` is remembered and every fragment of anchor `n` is reversed |
| HoverProcessor.HoverAlsoReversesLongerNumber | canoe/ui/hover_processor.py:46-48 | hovering anchor 1 also reverses a fragment of anchor 12 |
| HoverProcessor.HighlightAnchor | canoe/ui/hover_processor.py:44-48 | a fragment is reversed exactly when its style carries anchor number `n` |
| HoverProcessor.ApplyTransformationCorrected | canoe/ui/hover_processor.py:37-50 | remembers the same anchor number as the source; with the cursor on an anchor, a fragment gets ` reverse ` appended when it carries that number and keeps its style otherwise |
| HoverProcessor.CorrectedHoverReversesOnlyHovered | canoe/ui/hover_processor.py:44-48 | hovering anchor `n` reverses a fragment of anchor `k` exactly when `k` is `n` |
| ViewWindow.Init | canoe/ui/view_window.py:9-22 | a new view is read-only, empty, hovers nothing and holds a freshly built renderer |
| ViewWindow.SetBufferText | canoe/ui/view_window.py:10-12 | writing the buffer succeeds exactly when the view is not read-only, and changes only the text |
| ViewWindow.SetHtmlGetTitle | canoe/ui/view_window.py:47-52 | fails only on an unknown node kind; otherwise the buffer holds the rendered text, the view is read-only again whatever it was before, and the title is returned; the buffer text is `lex_html`'s line-feed join of the merged lines, the anchors grow by the document's, and the title is the last `title` |
| ViewWindow.SetHtmlGetTitleCorrected | canoe/ui/view_window.py:47-52 | the same outcome, title and anchors with the corrected rendering, and the buffer's lines are exactly the merged rendered lines |
| ViewWindow.GetUrlUnderCursor | canoe/ui/view_window.py:54-60 | nothing when no anchor is hovered; otherwise the hovered anchor's `href`, an IndexError for a number past the anchor list, or a KeyError for an anchor without `href` |
| ViewWindow.Explode | canoe/ui/hover_processor.py:35-36 | one fragment per character of the merged line, each with the style of a fragment of the line |
| ViewWindow.ExplodeAppend | canoe/ui/hover_processor.py:35-36 | exploding two lines joined end to end gives their explosions joined end to end |
| ViewWindow.ExplodeAt | canoe/ui/hover_processor.py:35-39 | character `c` of fragment `j` is the exploded fragment at column `c` plus the length of `MergeLine(line[..j])`, with fragment `j`'s style and that one character, so the cursor column picks the fragment the renderer pushed for the character under it |
| ViewWindow.HoverLine | canoe/ui/view_window.py:24-28 | a hover pass over a buffer line succeeds exactly when the renderer has that line, and then only updates the remembered anchor |
| ViewWindow.InitValid | canoe/ui/view_window.py:9-22 | a new view satisfies the invariant that every anchor number in the rendering and the hovered number name recorded anchors |
| ViewWindow.SetHtmlKeepsValid | canoe/ui/view_window.py:47-52 | rendering a document keeps that invariant |
| ViewWindow.SetHtmlCorrectedKeepsValid | canoe/ui/view_window.py:47-52 | so does the corrected rendering |
| ViewWindow.NewlineTextBreaksHover | canoe/ui/view_window.py:47-52 | after rendering `<p>a\nb</p>` as written, the buffer shows three lines and drawing line 2 raises IndexError |
| ViewWindow.BufferLinesHaveRenderedLines | canoe/ui/view_window.py:47-52 | after the corrected render every line the buffer shows has a rendered line, so a hover pass over it cannot raise |
| ViewWindow.HoverKeepsValid | canoe/ui/hover_processor.py:37-50 | a hover pass over a rendered line keeps the invariant |
| ViewWindow.ValidUrlLookupInRange | canoe/ui/view_window.py:54-60 | in a view keeping the invariant, the link lookup never raises IndexError |
| ViewWindow.HoverOnFragment | canoe/ui/hover_processor.py:35-42 | a hover pass with the cursor on character `c` of a rendered fragment styled for anchor `k` remembers `k` and leaves the rest of the view unchanged |
| ViewWindow.HoveredLinkUrl | canoe/ui/view_window.py:54-60 | in a valid view, with the cursor on character `c` of a fragment the renderer pushed for anchor `k`, `k` is a recorded anchor and the link under the cursor is its `href`, or a `KeyError` when it has none |
| EventDispatcher.OpenCommand | canoe/event.py:9-11 | the open command carries its method and URL |
| EventDispatcher.Init | canoe/event.py:18-20 | a new dispatcher has an empty queue and no handlers |
| EventDispatcher.Register | canoe/event.py:25-27 | fails its assertion exactly when the type already has a handler; otherwise adds that one mapping and keeps every other mapping and the queue |
| EventDispatcher.Enqueue | canoe/event.py:55-56 | the event is appended at the tail; the handlers are unchanged |
| EventDispatcher.Handle | canoe/event.py:29-41 | no handler: no call and false; otherwise one call of the type's handler, true when it returns and false when it raises an Exception |
| EventDispatcher.WorkerStep | canoe/event.py:43-53 | the worker waits on an empty queue; otherwise it handles the head and keeps the rest of the queue and the handlers |
| EventDispatcher.Drain | canoe/event.py:43-53 | the worker dies exactly when some handler raises a BaseException; it hands every event up to and including the first such one to its handler, once each and in queue order, and leaves the rest queued |
| EventDispatcher.FifoOrder | canoe/event.py:43-56 | two events enqueued on an idle dispatcher are both consumed by the worker and handled in enqueue order, even when the first is unhandled or its handler raises an Exception |
| EventDispatcher.EnqueueCommutesWithStep | canoe/event.py:43-56 | enqueuing before a worker step does not change the event it handles or its handling, and the new event waits at the tail |
| EventDispatcher.RegisterThenHandle | canoe/event.py:25-41 | a registered handler receives the events of its type, and events of other types are handled as before |
| EventDispatcher.DuplicateRegisterFails | canoe/event.py:25-27 | registering a second handler for a type fails its assertion |
| EventDispatcher.ModuleInit | canoe/event.py:59 | the module's dispatcher starts empty |
| EventDispatcher.ModuleEnqueue | canoe/event.py:62-63 | the module-level `enqueue` appends to the singleton's queue |
| EventDispatcher.ModuleRegister | canoe/event.py:66-67 | the module-level `register` has the same duplicate check and adds the one mapping |
| ClientEvent.New | canoe/client.py:13-14 | a new event has no callbacks |
| ClientEvent.Bind | canoe/client.py:16-17 | the callback is appended after the earlier ones, with no duplicate check |
| ClientEvent.Broadcast | canoe/client.py:19-21 | each bound callback is called with the value in binding order, up to and including the first that raises, which propagates |
| ClientEvent.Fire | canoe/client.py:19-21 | the loop makes exactly the calls of `Broadcast` and raises exactly when it does |
| ClientEvent.BindThenFire | canoe/client.py:16-21 | a callback bound after callbacks that do not raise is called last, and the event raises exactly when it does |
| ClientEvent.CalledAsOftenAsBound | canoe/client.py:16-21 | when nothing raises, each callback is called as many times as it was bound |
| ClientEvent.DoubleBindCallsTwice | canoe/client.py:16-21 | binding a callback twice makes one call of the event call it twice |
| ClientEvent.FireUnbound | canoe/client.py:19-21 | calling an event with no callbacks calls nothing and does not raise |
| YesNoPrompt.Init | canoe/ui/prompt.py:38-40 | a new prompt has the do-nothing accept handler |
| YesNoPrompt.Focus | canoe/ui/prompt.py:48-52 | focusing installs a forwarder to the given callback, replacing any handler, and focuses the input |
| YesNoPrompt.Accept | canoe/ui/prompt.py:42-46 | fails its assertion when the handler was consumed; otherwise forwards the text to the installed callback, if any, and unless it raised clears the handler and returns false |
| YesNoPrompt.AcceptIsOneShot | canoe/ui/prompt.py:42-46 | after an accept that went through, a second accept calls nothing and fails its assertion |
| YesNoPrompt.AcceptBeforeFocus | canoe/ui/prompt.py:38-46 | an accept before any focus calls no callback and consumes the handler |
| YesNoPrompt.LastFocusWins | canoe/ui/prompt.py:48-51 | the text goes to the callback of the last focus |
| YesNoPrompt.FocusRearms | canoe/ui/prompt.py:42-51 | focusing re-arms a consumed prompt |
| YesNoPrompt.RaisingCallbackStaysArmed | canoe/ui/prompt.py:42-46 | a callback that raises stays installed, so the next accept calls it again |

## Left out

- HTML parsing: the document is given as an already parsed tree. The parser's choices are not modelled.
- The parser library's class hierarchy: node kinds are disjoint variants here, and every `Text` node pushes its stripped text. In the library, the doctype, comments, CDATA sections and the strings inside `script` and `style` are all kinds of string node. So the string arm at canoe/ui/beautifulsoup_lexer.py:50-51 catches them before the doctype arm at line 52, and `get_text(strip=True)` may turn them into an empty fragment. What it returns for each kind depends on the library, which this model cannot see. The model takes the doctype arm for the doctype and treats every other string as text.
- BeautifulSoupLexer.Traverse: its own contract only says that lines are never removed; its full behaviour is stated by TraverseMatchesEmit and TraverseAllMatchesEmit.
- The renderer's state after a RuntimeError: the source leaves the lines, title and anchors pushed before the raise; an `Err` here carries no state.
- `lex_document`: it only hands the toolkit `get_line`, which is modelled as GetLine.
- Regular-expression classes: `\d` and `\w` are ASCII digits and ASCII letters, digits and underscore. Python's are Unicode-aware, and styles written by the renderer are ASCII.
- The cursor column: `source_to_display` is taken as the identity, because no processor runs before the hover processor.
- The unit test imports the pattern from canoe/client.py, which does not define it. The model applies the pattern of canoe/ui/hover_processor.py:6 to the test's string.
- Handler and callback side effects, and callbacks that bind further callbacks during a call: callbacks are identities and their effects are not modelled.
- Stateful handlers and callbacks: whether a call returns or raises is a fixed function of the (handler, event) or (callback, value) pair, so a handler that raises only on its second call with an equal event is outside the model.
- A handler value that is registered but falsy: the check at canoe/event.py:31 treats it as missing. Handlers are identities here, so every registered handler counts as present.
- Logging, asyncio scheduling, `start`, `pre_run` and `Queue.get` waiting: modelled only as "the worker takes the head of the queue, or waits".
- The network client, commands, the application wiring, key bindings, focus changes of the view and the other UI widgets: outside the core.
- The toolkit resetting the prompt buffer after accept: the handler returns false and the toolkit's reaction is not modelled.
- The duplicate tree under src/canoe: not part of this model.

## Findings

| source | as written | input that shows it | evidently intended | confidence | as-written member | corrected member |
|---|---|---|---|---|---|---|
| canoe/ui/hover_processor.py:46-48 | a fragment is reversed when its style contains the matched text `class:anchor class:_N` | anchors 1 and 12 on one line, cursor on anchor 1: `class:anchor class:_1` is contained in `class:anchor class:_12`, so both links are reversed | reverse only the fragments of the hovered anchor | not executed | HoverProcessor.HoverAlsoReversesLongerNumber | HoverProcessor.ApplyTransformationCorrected, HoverProcessor.CorrectedHoverReversesOnlyHovered |
| canoe/ui/beautifulsoup_lexer.py:50-51 | text nodes keep their inner line feeds, and the buffer text is the line-feed join of the rendered lines | `<p>a\nb</p>`: the buffer shows three lines, the renderer has two, and the toolkit's request for line 2 raises IndexError | each buffer line is drawn from its own rendered line | not executed | BeautifulSoupLexer.NewlineTextMisaligns, ViewWindow.NewlineTextBreaksHover | BeautifulSoupLexer.LexHtmlCorrected, ViewWindow.SetHtmlGetTitleCorrected, ViewWindow.BufferLinesHaveRenderedLines |
