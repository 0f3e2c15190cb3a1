# Verified model of llama-cli's text, layout and persistence algorithms

llama-cli has several independently written string, graph and layout algorithms. This project models them in Dafny and
proves what they promise each other: that printed hunks patch, that two renderers show the same text, that what is
saved is loaded, that a layout is safe on cyclic graphs, that rewriting loops end.

Loops and objects of the source are methods and classes here, each proved to compute a specification function or to
establish a stated property; the properties of the specification functions are lemmas. Strings are sequences of
characters that stand for bytes; positions and lengths count bytes; `npos` is -1.

## Modules

| module | source | subject |
|---|---|---|
| Wrappers, Text | | `Option`; `find`, occurrences, `getline`, counting |
| UnifiedDiff | repl_annotations.cpp | entries, context mask, hunks, and a strict patch tool |
| Walks, FlowGraph | mermaid.cpp | walks and cycles; Kahn's algorithm with longest-path layers |
| FlowText, FlowChains, Placement | mermaid.cpp | parsing flowcharts; what the lines of a chart mean; cells and drawing order |
| OrgChart, Mindmap | orgchart.cpp, mindmap.cpp | lowering an outline to a flowchart; printing a tree by looking ahead |
| Json, JsonString, JsonObject | json.cpp | escapers and decoders; the grammar of a string and its meaning; brace scan |
| Session, SessionRoles, ChatFile, Base64 | session.cpp, repl_commands.cpp | the two persistence formats; the image encoding |
| Ansi, Inline, InlineSpans | util.cpp, markdown.cpp, table.cpp | what a terminal shows; spans and what is seen of them |
| Table, TableGeometry, TableContents | table.cpp | laying out a table; where its bars and its cells' texts stand |
| Highlight, HighlightLexemes | highlight.cpp | code lines, and the lexemes they are made of |
| Markdown, MarkdownBlocks, MarkdownDocument | markdown.cpp | the batch renderer; what it shows of each kind of line and of a whole document |
| Streaming, StreamRefinement, StreamDifferences, PlainStream | markdown_stream.cpp | the streaming renderer, and how it compares; its output without colour |
| TagRepair, TagElements, TagSegments, TagOutcome, TagCommands | annotation.cpp, sync.cpp | repairing closing tags: the loops, one round, one pass, all passes; reading commands |
| StripAnnotations, StrReplaceLoop, AnnotationSummaries | annotation.cpp | the six rewriting loops of `strip_annotations` |
| MultiHost, ResponseStream | multi_host_provider.cpp, ollama.cpp | failover; reassembly of a streamed response |

## Findings

Where the code falls short of what it is for, the code is modelled as it is and the exact condition is proved.

- Loading a session adds a message for every message but the last whose role is `role` or whose content is `role` or
  ends in `"role`, because the loader searches for `"role"` anywhere (Session.LoadOfSave, SessionRoles.EchoIsLoaded). It
  also unescapes contents twice, so a content with a backslash before `n`, `r`, `t`, `"` or `\` changes
  (SessionRoles.BackslashIsLost), and it writes roles unescaped, so a role with a quote or an escape is lost. The exact
  condition, for every conversation, is SessionRoles.SessionRoundTrip.
- A saved chat is damaged by a content that ends in a backslash or a role that holds a quote (ChatFile.ChatRoundTrip,
  ChatFile.BackslashIsLost).
- `unescape_json` does not invert `escape_json` on control characters other than newline, return and tab
  (Json.UnescapeInvertsEscape, Json.ControlIsNotUnescaped).
- The streaming renderer drops the last row of a table that ends without a newline: `finish` prints the table before
  it reads the rest of the buffer (StreamRefinement.StreamRefinesBatch, StreamDifferences.OneCellDiffers). It hides
  lines with annotation tags, takes a blank before the tag `mermaid` away, and shows an empty mermaid block otherwise
  than the batch renderer (StreamDifferences).
- `visible_length` counts one column less than is shown for every link (Inline.VisibleLengthIsShownLength).
- The `str_replace` loop of `strip_annotations` may run forever, because it searches for the path beyond the end of
  the annotation; whether it does can be computed from the input (StrReplaceLoop.EndsIffNoTrap,
  StrReplaceLoop.ViciousNeverEnds).
- The write loop of `strip_annotations` leaves an annotation in place exactly when the last opener has a closer but no
  closing quote and is not inside the annotation before it (StripAnnotations.WriteLeavesIff,
  StripAnnotations.UnquotedStays).
- An org chart whose depths jump may draw an indented entry that has no parent at layer 0: exactly when that entry is
  itself a parent (OrgChart.LayersAreDepths, OrgChart.JumpIsNotDrawnAtItsDepth).
- The repair of closing tags takes a later element that is closed with the wrong element's name for its closing tag, and
  then leaves it broken; and a command that holds another command is not recovered (TagOutcome.ElementsAreRepaired,
  TagCommands.CommandsAreRecovered, TagCommands.StrayCloserMisleads).
- A mermaid block that is not closed is lost: neither its fence nor its lines are printed, where an unclosed code block
  is printed (MarkdownDocument.DocumentRendered).
- The comments in session.cpp and annotation.h state the restored contents and the removed annotations without these
  conditions; the model follows the code.

## Parameters

The edit script of a diff stands for the Myers library: any script, its sides being the old and the new lines. The
terminal width, the highlighter's tables and the choice of a language, the output of the diagram renderers, the colour
codes of the theme, the answers of hosts and of the token callback are parameters. Files are their contents.

## Model

| member | source | states |
|---|---|---|
| UnifiedDiff.HunksPatchOldIntoNew | src/repl/repl_annotations.cpp:124-203 | For every edit script, a strict patch tool applied to the old lines with the printed hunks gives the new lines. The tool rejects a hunk that starts before the end of the last one, whose two ranges do not match its body, whose context or deleted lines differ from the old file, or whose new start is not where the result has got to. |
| UnifiedDiff.PatchFrom | src/repl/repl_annotations.cpp:163-203 | The same from any entry on, for any context mask that shows every change: hunks are disjoint, in order, and everything between them is common to both files. |
| UnifiedDiff.ExactlyTheContextIsPrinted | src/repl/repl_annotations.cpp:150-161 | The body lines are exactly the entries with a change within three entries, each once, in order. |
| UnifiedDiff.OldSlice | src/repl/repl_annotations.cpp:131-148 | An old-side range of the script lies in the old file where the running line number says. |
| UnifiedDiff.ShowDiff | src/repl/repl_annotations.cpp:131-203 | The loops print exactly the hunks that the properties above are about. |
| UnifiedDiff.NumberEntries | src/repl/repl_annotations.cpp:131-148 | The counters `oln` and `nln` number every entry by the lines of both sides before it. |
| UnifiedDiff.MarkContext | src/repl/repl_annotations.cpp:150-161 | The nested loops mark an entry exactly when a change lies within three entries, also at both ends of the list. |
| UnifiedDiff.PrintEntry | src/repl/repl_annotations.cpp:170-202 | A header is printed exactly at the first entry of a run of shown entries; it counts the whole run. |
| UnifiedDiff.CountRange | src/repl/repl_annotations.cpp:175-184 | The two counts are the lengths of the old and new side of the run. |
| FlowGraph.Graph.AssignLayers | src/tui/mermaid/mermaid.cpp:194-227 | On every graph, cyclic or not, with layers 0: each node is queued at most once and exactly the nodes that no cycle reaches are queued; a queued node gets the length of a longest walk to it, any other node that of a longest walk through unreached nodes; all layers lie in `0..max_layer`, which is reached. Nothing but layers changes. |
| FlowGraph.QueuedIffNotBelowCycle | src/tui/mermaid/mermaid.cpp:204-225 | Kahn's queue ends up holding exactly the nodes that are not below a cycle. |
| FlowGraph.LayersAreLongestWalks | src/tui/mermaid/mermaid.cpp:212-225 | Whatever the relaxation order was, every layer is the length of a longest walk that avoids the nodes below cycles. |
| FlowGraph.QueuedIsNotBelowCycle | src/tui/mermaid/mermaid.cpp:212-225 | A queued node is not reachable from a cycle. |
| FlowGraph.UnqueuedIsBelowCycle | src/tui/mermaid/mermaid.cpp:212-225 | A node that is never queued is reachable from a cycle. |
| FlowGraph.RelaxQueue | src/tui/mermaid/mermaid.cpp:218-222 | Relaxing one edge keeps every in-degree equal to the number of edges not yet relaxed, hence never negative, and queues a node exactly when that reaches 0. |
| FlowGraph.RelaxLayers | src/tui/mermaid/mermaid.cpp:214-217 | Relaxing one edge keeps every layer justified by a relaxed edge, and the returned maximum equal to the greatest layer. |
| Walks.LongestIsUnrestricted | src/tui/mermaid/mermaid.cpp:194-227 | For a node that no cycle reaches, the longest restricted walk is the longest walk outright. |
| Walks.BelowCycleSpreads | src/tui/mermaid/mermaid.cpp:194-227 | Whatever is reachable from a node below a cycle is below that cycle. |
| FlowGraph.Graph.FindNode | src/tui/mermaid/mermaid.cpp:46-53 | The least index of the name, or -1 when no node has it. |
| FlowGraph.Graph.GetOrAdd | src/tui/mermaid/mermaid.cpp:55-62 | A known name gives its node and changes nothing; an unknown one is appended; names stay distinct and old indices stay valid. |
| Placement.AssignOrder | src/tui/mermaid/mermaid.cpp:235-241 | After the order assignment every node stands in a cell of its layer, orders count up from 0 within a layer, and `layer_sizes` is indexed in range. |
| Placement.CellsAreDistinct | src/tui/mermaid/mermaid.cpp:348-354 | `order < layer_sizes[layer]` for every node, and no two nodes share a (layer, order) pair. |
| Placement.RowIsTaken | src/tui/mermaid/mermaid.cpp:348-354 | Every order below the size of a layer belongs to some node of it: together with the row above, a bijection. |
| Placement.FindCell | src/tui/mermaid/mermaid.cpp:372-380 | The cell search finds the node of a cell when there is one and -1 exactly beyond the size of the layer. |
| Placement.DrawLeftToRight | src/tui/mermaid/mermaid.cpp:356-379 | The row by column search of the left-to-right drawing meets every node exactly once. |
| Placement.CollectLayer | src/tui/mermaid/mermaid.cpp:244-253 | The top-down drawing collects every layer completely and already in order. |
| FlowText.ParseNodeToken | src/tui/mermaid/mermaid.cpp:78-116 | A token adds at most one node, whose name and caption come from the first bracket; the returned index names it. |
| FlowText.ParseEdgeLine | src/tui/mermaid/mermaid.cpp:119-156 | A line of arrows adds its tokens in order and one edge between each two consecutive tokens, labels dropped. |
| FlowText.Parse | src/tui/mermaid/mermaid.cpp:159-188 | Parsing builds the graph that reading the lines one by one describes, with distinct names and all layers 0. |
| FlowChains.ChainReads | src/tui/mermaid/mermaid.cpp:119-156 | A line of tokens joined by `-->` or by `-->|label|`, with any blanks around the arrows and after the label and any label without a bar, is read as exactly its tokens, in order. |
| FlowChains.ArrowsOnly | src/tui/mermaid/mermaid.cpp:119-156 | An arrow before the first token adds no token. |
| FlowChains.TrailingArrow | src/tui/mermaid/mermaid.cpp:119-156 | Nor does one behind the last. |
| FlowChains.UnclosedLabel | src/tui/mermaid/mermaid.cpp:143-147 | A label whose closing bar is missing is read as the token. |
| FlowChains.BareToken | src/tui/mermaid/mermaid.cpp:78-116 | A token without brackets is its name and caption. |
| FlowChains.BracketedToken | src/tui/mermaid/mermaid.cpp:78-116 | A name, one of the opening brackets, a caption and the bracket's partner give that name and that caption, one pair of nested brackets stripped. |
| FlowChains.UnclosedToken | src/tui/mermaid/mermaid.cpp:78-116 | Without the partner the last character of the token is lost. |
| FlowChains.ChainJoins | src/tui/mermaid/mermaid.cpp:119-156 | A line adds the nodes of its tokens and exactly one edge from each token's node to the next one's, whatever the labels, and leaves all other edges alone. |
| FlowChains.ChartRead | src/tui/mermaid/mermaid.cpp:159-188 | A whole chart, its lines separated by line breaks or semicolons, gives the graph of its chains in order, whatever stands on lines without an arrow; the direction is left to right when the header holds `LR`. |
| OrgChart.LayoutOrgChart | src/tui/mermaid/orgchart.cpp:94-114 | End to end, from entries through the generated text, its parse and `assign_layers`: the nodes are exactly the entries that occur in an edge of the outline; every edge leads from an entry's parent to it, a node has one in-edge if its entry has a parent and none otherwise; and the layers are the indentation depths if and only if every indented entry that is the parent of another has a parent itself, a condition on the depths alone; on outlines (depths from 0, growing by at most 1) it holds. |
| OrgChart.FindParent | src/tui/mermaid/orgchart.cpp:102-110 | The backward search finds the nearest preceding entry one level up, or none. |
| OrgChart.FlowchartText | src/tui/mermaid/orgchart.cpp:96-111 | The text lists one edge for every indented entry that has a parent, parent first, in order; so there is one in-edge per non-root. |
| OrgChart.EdgeLineChain | src/tui/mermaid/orgchart.cpp:106 | An edge line whose captions hold no arrow, semicolon or line break is read back as exactly its two tokens, whatever brackets and bars they hold. |
| OrgChart.ParsedFlowchart | src/tui/mermaid/orgchart.cpp:96-114 | Parsing the generated text gives the graph of the listed edges. |
| OrgChart.LayersAreDepths | src/tui/mermaid/orgchart.cpp:94-114 | The layers of the graph equal the depths if and only if every indented entry that is a parent has a parent. |
| OrgChart.LoweringIsForest | src/tui/mermaid/orgchart.cpp:94-114 | The lowered graph is a forest: its edges lead from parents to children, no node has two in-edges, and exactly the entries with a parent have one. |
| OrgChart.JumpIsNotDrawnAtItsDepth | src/tui/mermaid/orgchart.cpp:102-110 | The depths 0, 2, 3 do not meet that condition, and some node is not drawn at its depth. |
| OrgChart.LayerIsDepth | src/tui/mermaid/orgchart.cpp:94-114 | In a graph whose edges lead one level down and whose deeper nodes have in-edges, the longest walk to a node has the length of its depth. |
| OrgChart.NoCycle | src/tui/mermaid/orgchart.cpp:94-114 | In a graph whose edges lead one level down no node is below a cycle. |
| OrgChart.IdInjective | src/tui/mermaid/orgchart.cpp:104-105 | Different entries get different node names. |
| OrgChart.OutlineParentsHaveParents | src/tui/mermaid/orgchart.cpp:99-110 | In an outline every indented entry has a parent, so the condition holds. |
| Mindmap.OutlinePrintsAsTree | src/tui/mermaid/mindmap.cpp:131-177 | For every preorder depth list that starts at 0 and grows by at most 1, the flat look-ahead printer prints what a recursive forest printer prints for the forest the list describes. |
| Mindmap.LookAheadPrintsTree | src/tui/mermaid/mindmap.cpp:131-177 | The same below the root, at any depth and whatever follows: the connectors depend on siblings only. |
| Mindmap.LookAheadPrintsRoots | src/tui/mermaid/mindmap.cpp:131-177 | The same for every forest, flattened. |
| Mindmap.BuildFlattens | src/tui/mermaid/mindmap.cpp:131-177 | Every such depth list is the flattening of a forest. |
| Mindmap.LookAhead | src/tui/mermaid/mindmap.cpp:146-155 | The inner scans stop at the first node that is not deeper and answer whether it is a sibling. |
| Mindmap.Render | src/tui/mermaid/mindmap.cpp:131-177 | The nested loops print what the property above is about. |
| Json.DecodeInvertsEscape | src/json/json.cpp:117-150 | Every string written by `escape_json` and closed by a quote is read back unchanged, wherever it stands and whatever follows. |
| Json.FieldRoundTrip | src/json/json.cpp:117-150 | A field whose key is found gives back the string it was written from. |
| JsonString.PiecesRead | src/json/json.cpp:13-47 | A JSON string, wherever it stands, decodes to what its pieces mean: plain characters, the short escapes, `\u` with four hexadecimal digits of either case, and backslashes that make no escape. With value v = 4096 h0 + 256 h1 + 16 h2 + h3, an escape means the character v when v < 128 and nothing otherwise, and reading goes on six characters later. |
| JsonString.StringField | src/json/json.cpp:117-150 | A field whose key stands first is decoded to what its pieces mean, with blanks after the colon and whatever follows. |
| JsonString.BareField | src/json/json.cpp:124-131 | A value without quotes is read up to a comma, a brace or a blank; `null`, `true` and `false` give the empty text. |
| JsonString.NoField | src/json/json.cpp:117-123 | Without the key, or with nothing but blanks behind it, the answer is the empty text. |
| JsonString.StoulReads | src/json/json.cpp:20-22 | What the conversion makes of characters that start with blanks, a sign, perhaps `0x`, and digits: the value of the digits up to the first other character, negated in 64 bits after a minus sign. |
| JsonString.StoulThrows | src/json/json.cpp:20-22 | It throws when no digit follows the blanks and the sign. |
| JsonString.BadNumericThrows | src/json/json.cpp:19-27 | Then so does the decoder. |
| JsonString.ShortNumericKept | src/json/json.cpp:19-27 | Too near the end of the text for four digits, the backslash is kept. |
| JsonString.EscapedIsJson | src/json/json.cpp:199-235 | The escaper writes pieces that mean the text, without a control character among them. |
| Json.BackwardParityIsForwardFlag | src/json/json.cpp:51-62 | At every position, an odd run of backslashes counted backwards is the forward automaton's "escaped" state. |
| Json.IsEndQuote | src/json/json.cpp:51-62 | The backward loop decides that parity for a quote. |
| Json.DecodeString | src/json/json.cpp:117-150 | The loop over a quoted value computes the decoder of the round trip, `\u` escapes included. |
| Json.EscapeJson | src/json/json.cpp:199-235 | The loop computes the escaper of the round trip. |
| Json.UnescapeJson | src/json/json.cpp:238-267 | The loop computes the second decoder. |
| Json.UnescapeFixes | src/json/json.cpp:238-267 | The second decoder leaves a text alone if and only if no backslash starts one of its escapes. |
| Json.UnescapeInvertsEscape | src/json/json.cpp:199-267 | The second decoder inverts the escaper if and only if the text has no control character other than newline, return and tab; otherwise the result is longer. |
| Json.ControlIsNotUnescaped | src/json/json.cpp:199-267 | A failing input: the character with code 1 comes back as six characters. |
| JsonObject.BracedIsObject | src/json/json.cpp:83-111 | `extract_braced` returns exactly the text of a printed object, whatever braces, quotes and backslashes its strings hold, however deep it nests, and whatever follows it. |
| JsonObject.ObjectRoundTrip | src/json/json.cpp:159-165 | An object found by its key is extracted exactly as it was printed. |
| JsonObject.TruncatedIsNothing | src/json/json.cpp:83-111 | An object that is cut off anywhere before its closing brace gives nothing. |
| JsonObject.NoObject | src/json/json.cpp:159-165 | A value that does not start with a brace gives nothing. |
| JsonObject.SkipBody | src/json/json.cpp:83-111 | The brace scan passes over any printed body and is back at its depth, outside strings. |
| JsonObject.ExtractBraced | src/json/json.cpp:83-111 | The loop computes the scan the properties are about, the unbalanced case included. |
| SessionRoles.SessionRoundTrip | src/session/session.cpp:16-51 | For every conversation: loading what was saved gives it back if and only if every role is non-empty and is read back as it was written (no quote, and no backslash that ends the role or makes an escape), `unescape_json` fixes every content, and no message but the last has the role `role` or a content that is `role` or ends in `"role`. |
| SessionRoles.RolesMustBeKept | src/session/session.cpp:16-51 | Whatever the roles hold, keys of their own included, a conversation that comes back has only roles that are read back as written. |
| SessionRoles.DecodeBound | src/json/json.cpp:117-150 | Decoding from any position inside an unescaped role, beyond its closing quote if need be, lowers a weight of the text unless the rest of the role is read back as written. |
| SessionRoles.RowsCarry | src/session/session.cpp:28-30 | Every text that stands after a `"role":` anywhere in a saved file is a role that is read back as written, or lighter than some role that is not. |
| SessionRoles.EchoIsLoaded | src/session/session.cpp:28-34 | A failing input: after a first message with the content `role` the second message is loaded twice. |
| SessionRoles.BackslashIsLost | src/session/session.cpp:30-32 | A failing input: a content of a backslash and `n` is loaded as a newline. |
| SessionRoles.QuotedRoleIsLost | src/session/session.cpp:44 | A failing input: a role that holds a quote. |
| Session.LoadOfSave | src/session/session.cpp:16-51 | What loading returns when the roles are read back as written: each message with its content unescaped, plus one echo for each of those coincidences, with the role and content it picks up. |
| Session.RoleOccurrences | src/session/session.cpp:28 | The searched text `"role"` occurs in a saved row as the key, as the role value `role`, and at the end of a content that ends in `"role` or is `role`: nowhere else. |
| Session.EscapedEnd | src/session/session.cpp:28 | An escaped content ends that way exactly when the content does. |
| Session.ExpectedIsIdentity | src/session/session.cpp:16-51 | The list of the row above is the saved one exactly under the stated conditions. |
| Session.SaveSession | src/session/session.cpp:40-51 | The loop writes the file the properties are about. |
| Session.LoadSession | src/session/session.cpp:16-36 | The loop reads it that way, every file included; a numeric escape that makes the decoder throw is an error. |
| ChatFile.ChatRoundTrip | src/repl/repl_commands.cpp:630-693 | A chat that is saved and loaded is unchanged if and only if no role holds a quote and no content ends in a backslash. |
| ChatFile.BackslashIsLost | src/repl/repl_commands.cpp:674-691 | Failing inputs: a content that ends in a backslash, and a role that holds a quote. |
| ChatFile.LoadRows | src/repl/repl_commands.cpp:659-693 | The same from any row on. |
| ChatFile.ReadRowContent | src/repl/repl_commands.cpp:672-691 | A content is read back up to its closing quote unless it ends in a backslash; then more is read. |
| ChatFile.WrittenIsJson | src/repl/repl_commands.cpp:636-648 | What is written for a content are pieces of a JSON string that mean it, without a line break. |
| ChatFile.SaveChat | src/repl/repl_commands.cpp:630-651 | The loop writes that file. |
| ChatFile.LoadChat | src/repl/repl_commands.cpp:659-693 | The loop reads any file that way. |
| Base64.Encode | src/repl/repl_commands.cpp:1106-1124 | The loop, with its 32-bit accumulator that wraps around and is shifted arithmetically, computes the encoding of section 4 of RFC 4648. |
| Base64.EncodingIsRfc4648 | src/repl/repl_commands.cpp:1106-1124 | That encoding has four characters for every started group of three bytes and a strict decoder reads it back. |
| Base64.DecodedEncodes | src/repl/repl_commands.cpp:1106-1124 | Every text the strict decoder accepts is the encoding of what it returns. |
| Base64.LowTwelveBits | src/repl/repl_commands.cpp:1111-1120 | Only the low 12 bits of the accumulator reach the output, whatever the others are. |
| Base64.StateStep | src/repl/repl_commands.cpp:1111-1118 | Between bytes `bits` is -6, -4 or -2, and the output is the encoding of the complete groups plus the sextets of the incomplete one. |
| Base64.Finish | src/repl/repl_commands.cpp:1119-1124 | The last sextet and the padding complete the encoding. |
| Ansi.StripAnsiLoop | src/util/util.cpp:101-118 | The loop with its flag computes the visible text. |
| Ansi.VisibleConcat | src/util/util.cpp:101-118 | The visible text of a concatenation is that of its parts, the second read from the state the first leaves. |
| Ansi.ShowsStyled | src/util/util.cpp:101-118 | A colour code, some text and a reset show the text. |
| Highlight.HighlightPreservesText | src/tui/highlight.cpp:217-325 | For every line without escape characters, every language and every table of words, the highlighted line shows exactly the line. |
| HighlightLexemes.LineHighlighted | src/tui/highlight.cpp:217-325 | A line written as lexemes is coloured lexeme by lexeme: comments to the end of the line, strings with their escapes, closed or not, words of each table at word boundaries, numbers and preprocessor lines each in their own colour, every other character in the base colour. |
| Highlight.HighlightLineLoop | src/tui/highlight.cpp:217-325 | The loop, branch by branch in the source's order, computes the highlighter of that property. |
| Highlight.FirstWord | src/tui/highlight.cpp:47-63 | A word found stands at the position, with a boundary on both sides. |
| Inline.VisibleLengthIsShownLength | src/tui/table.cpp:86-151 | For every text without escape characters, what `render_inline` shows is as long as `visible_length` says plus one column for each link; so it is exact on texts without links. |
| Inline.SameSpan | src/tui/table.cpp:86-151 | At every position the second scanner, which tries the delimiters in another order, consumes what the first matches and counts the text it shows, less one column for a link. |
| Inline.RenderInlineLoop | src/tui/markdown.cpp:160-188 | The loop over the `try_*` functions computes the renderer of that property. |
| InlineSpans.SpansRendered | src/tui/markdown.cpp:57-188 | Text written as spans (bold, italic, both, struck out, code, links, plain) is rendered span by span with the code of each kind; without colour it stays as it is. |
| InlineSpans.SpansShow | src/tui/markdown.cpp:57-188 | What is seen of it are the texts of the spans without delimiters, and the address of a link in parentheses. |
| InlineSpans.PlainRendered | src/tui/markdown.cpp:160-188 | Text without delimiters is rendered as it is. |
| InlineSpans.UnpairedRendered | src/tui/markdown.cpp:57-188 | So is text whose delimiters have no partner. |
| Inline.VisibleLengthLoop | src/tui/table.cpp:86-151 | The loop computes the counter of that property. |
| Table.ParseTableCells | src/tui/table.cpp:58-80 | The loop computes the cells the geometry is about: split at bars, trimmed, without an empty last one. |
| Table.FillMaxWidths | src/tui/table.cpp:176-182 | The in-place maxima are the greatest cell widths of the columns. |
| Table.Distribute | src/tui/table.cpp:184-197 | The integer division gives the column widths the geometry is about. |
| Table.RenderTableLoop | src/tui/table.cpp:158-222 | The loops print the rows the geometry is about. |
| TableGeometry.TableIsAligned | src/tui/table.cpp:199-220 | In a table without links every data row shows a line of 2 + the sum of (width + 3) columns, one more than every separator, and in all lines the bars stand at the same columns. Between the bars of a data row stand a blank, the visible text of that cell, and blanks up to the width; between those of a separator stand dashes. |
| TableContents.TableShows | src/tui/table.cpp:158-222 | The whole table, links included, shows line by line its separators as dashes and its data rows as bars, blanks and the visible text of every cell, in order, filled up with blanks to the width of its column, blank cells for missing ones. |
| TableContents.CellsRead | src/tui/table.cpp:58-80 | The cells of a written row are read back without the blanks around them, empty ones between bars included. |
| TableContents.ContentIsGreatest | src/tui/table.cpp:176-182 | The content width of a column is the width of its widest cell, and at least 1. |
| TableContents.ColumnsAreGreatest | src/tui/table.cpp:166-174 | There are as many columns as the longest row has cells. |
| TableGeometry.WidthsAreProportional | src/tui/table.cpp:184-197 | When the contents fit, each width is the content's share of the available width, rounded down. |
| TableGeometry.AvailableIs | src/tui/table.cpp:184-190 | The available width is the terminal less 3 columns for each column and 1, but one for each column at least. |
| TableGeometry.DataRowIsAligned | src/tui/table.cpp:210-219 | The same for any row whose cells fit their columns: `line[PipeAt(c) + 2..PipeAt(c + 1) - 1]` is the visible text of cell c and blanks. |
| TableGeometry.SeparatorIsAligned | src/tui/table.cpp:202-209 | The same for separators. |
| TableGeometry.WidthsFillAvailable | src/tui/table.cpp:184-197 | When the contents fit, the floor division loses less than one column per column and never exceeds the available width. |
| TableGeometry.WidthsAreContents | src/tui/table.cpp:184-197 | When they do not fit, every column gets exactly the width of its content. |
| TableGeometry.SeparatorFillsTerminal | src/tui/table.cpp:184-209 | When they fit and the available width is the terminal less the overhead, a separator is wider than the terminal less one column per column, and never wider than the terminal. |
| Markdown.SameLine | src/tui/markdown_stream.cpp:155-178 | Although the two renderers try heading and rule in opposite orders, they render every line alike. |
| Markdown.RuleIsMarks | src/tui/markdown.cpp:33-56 | A line is a rule exactly when it consists of blanks and at least three times the same one of the three marks. |
| Markdown.IsHorizontalRuleLoop | src/tui/markdown.cpp:33-56 | The loop, which looks at each character once, computes that test. |
| Markdown.CodeBlockShowsItself | src/tui/markdown.cpp:262-279 | A code block of any language but `mermaid`, in any state outside a block, shows its two fences and exactly its lines between them, whatever markdown they hold; afterwards the renderer is outside a block again with no table held back. |
| Markdown.IndentLoop | src/tui/markdown.cpp:208-212 | The loop stops at the first character that is no blank, all before it being blanks or tabs. |
| Markdown.RenderLinesLoop | src/tui/markdown.cpp:282-346 | The batch loop, with its fence, table and mermaid state, computes the renderer of the refinement. |
| MarkdownDocument.DocumentRendered | src/tui/markdown.cpp:282-346 | A whole document is rendered block by block, in order: lines, tables as wholes, code blocks with their fences and highlighted lines, diagrams in the place of their block or the block itself; a code block that is not closed is rendered, a mermaid block that is not closed gives nothing. |
| MarkdownBlocks.BulletSeen | src/tui/markdown.cpp:206-216 | For every indentation, either mark and every text of spans, a bullet item shows two blanks more than the indentation, the bullet and the seen text. |
| MarkdownBlocks.NumberedSeen | src/tui/markdown.cpp:217-224 | The same for a numbered item and its number. |
| MarkdownBlocks.QuoteSeen | src/tui/markdown.cpp:246-250 | A quotation shows a bar and the seen text. |
| MarkdownBlocks.HeadingSeen | src/tui/markdown.cpp:193-204 | A heading of any level shows its text. |
| MarkdownBlocks.ParagraphSeen | src/tui/markdown.cpp:238-258 | A line that is none of these shows the seen text of its spans. |
| MarkdownBlocks.RuleLine | src/tui/markdown.cpp:243-245 | A rule shows its line, 20 characters long. |
| Streaming.StreamRenderer.constructor | src/tui/markdown_stream.cpp:23 | The initial state. |
| Streaming.StreamRenderer.Write | src/tui/markdown_stream.cpp:27-38 | Feeding a token changes the whole state as feeding its characters one by one does. |
| Streaming.StreamRenderer.Finish | src/tui/markdown_stream.cpp:41-55 | What the end of the stream prints and leaves. |
| Streaming.StreamRenderer.DoFlushLine | src/tui/markdown_stream.cpp:58-134 | What a complete line prints, holds back or hides, in every state. |
| Streaming.StreamRenderer.FlushLinePlain | src/tui/markdown_stream.cpp:137-144 | The same without colour. |
| PlainStream.PlainStreamed | src/tui/markdown_stream.cpp:58-144 | The whole output of the stream without colour: the lines as they are, each table laid out where its last row stood, nothing of tagged lines, the rest of the buffer after the last table. |
| PlainStream.HiddenIs | src/tui/markdown_stream.cpp:63-71 | A line is hidden exactly when one of the eleven tags stands in it. |
| Streaming.StreamRenderer.DoFlushTable | src/tui/markdown_stream.cpp:147-152 | The table held back is printed once and forgotten. |
| StreamRefinement.StreamRefinesBatch | src/tui/markdown_stream.cpp:27-178 | The stream shows of a text what the batch renderer shows of the text without its tagged lines, if and only if that does not end, without a newline, in a row of a table that shows anything. |
| StreamRefinement.TaggedLinesAreHidden | src/tui/markdown_stream.cpp:63-71 | Lines that hold an annotation tag leave no trace: the whole final state is that of the text without them, an incomplete last line included. |
| StreamRefinement.UntaggedIsText | src/tui/markdown_stream.cpp:63-71 | A text without such lines is that text itself. |
| StreamRefinement.TokensRefineBatch | src/tui/markdown_stream.cpp:27-178 | The same, in both directions, for a text that arrives in any tokens. |
| StreamRefinement.TokensDoNotMatter | src/tui/markdown_stream.cpp:27-38 | Where the tokens are cut is unobservable, on every text. |
| StreamRefinement.LineRelated | src/tui/markdown_stream.cpp:58-134 | One line keeps the two renderers together: same text shown, same table held back, same block state. |
| StreamRefinement.LongerTableDiffers | src/tui/markdown_stream.cpp:41-55 | A table with one row more shows something else, unless it has no columns. |
| StreamDifferences.HiddenLineDiffers | src/tui/markdown_stream.cpp:63-71 | A heading that holds an annotation tag is shown by the batch renderer only. |
| StreamDifferences.BlankFenceDiffers | src/tui/markdown_stream.cpp:85-101 | A fence with a blank before the tag `mermaid` is shown by the batch renderer only. |
| StreamDifferences.EmptyDiagramDiffers | src/tui/markdown_stream.cpp:102-122 | An empty mermaid block that no diagram renderer accepts is shown differently. |
| StreamDifferences.LastRowDiffers | src/tui/markdown_stream.cpp:41-55 | A text that is one table row without a newline is shown differently. |
| StreamDifferences.OneCellDiffers | src/tui/markdown_stream.cpp:41-55 | The shortest such text: one `a` between two bars. |
| TagOutcome.ElementsAreRepaired | src/annotation/annotation.cpp:437-518 | For every sequence of elements of the four tags that have a closer, each holding any number of complete elements of any of the four and closed by a tag of an arbitrary name: the repair gives the same text with every element closed by its own name, and nothing else changed, if and only if no element is blocked. An element is blocked when its name is wrong, it holds no element of its own tag, and a later element, before the next of its tag opens, is closed with its name. |
| TagSegments.SegmentsAreRepaired | src/annotation/annotation.cpp:437-518 | What the six passes make of every such text, blocked elements included: names change as the condition says, pass by pass, and nothing else does. |
| TagSegments.PassWritten | src/annotation/annotation.cpp:449-515 | The same for one tag, from any position on. |
| TagOutcome.AllCorrected | src/annotation/annotation.cpp:437-518 | The passes leave no wrong name exactly when no element is blocked; the order of the passes matters, for a name that one corrects no longer misleads a later one. |
| TagCommands.ForeignNames | src/annotation/annotation.cpp:437-518 | In particular every element is closed rightly when the written names are right or not those of tags. |
| TagCommands.CommandsAreRecovered | src/annotation/annotation.cpp:437-518 | The commands read from the repaired text are exactly those written, in order, whatever elements of other tags stand between and inside them, if and only if no command holds a command and none is blocked. |
| TagCommands.CommandsRead | src/sync/sync.cpp:73-88 | Without repair they are read exactly when every command is closed with its own name and holds no command. |
| TagCommands.StrayCloserMisleads | src/annotation/annotation.cpp:463-510 | A failing input: a command with a wrong closing tag before a `<write>` element that is closed with `</exec>`. |
| TagRepair.ParseExecTags | src/sync/sync.cpp:73-88 | The loop reads the commands the property is about. |
| TagSegments.InnerElementsAreKept | src/annotation/annotation.cpp:469-511 | Whatever follows an element of any of the four tags, with complete elements of any of them inside: a round that does not find it closed corrects its own closing tag and goes on behind it. |
| TagRepair.WellClosedIsKept | src/annotation/annotation.cpp:463-468 | The repair is the identity when every opener has its closer before the next opener of its kind. |
| TagRepair.RepairStep | src/annotation/annotation.cpp:451-514 | What is left to read gets strictly shorter in every round, also when a repair makes the text longer. |
| TagRepair.RepairTag | src/annotation/annotation.cpp:449-515 | The loop for one tag computes that rewriting; it ends. |
| TagRepair.SearchBad | src/annotation/annotation.cpp:471-511 | The inner loop finds the next closing tag that does not close an inner element; it ends. |
| TagRepair.FixMalformedTags | src/annotation/annotation.cpp:437-518 | The loops over all six tags compute the repair of the properties. |
| StripAnnotations.StepShrinks | src/annotation/annotation.cpp:325-429 | In each loop but that of `str_replace` one character gets rarer in every round: the quote for write, `>` for read, `<` for search, add_line and delete_line. |
| StripAnnotations.LoopStops | src/annotation/annotation.cpp:325-429 | A loop leaves nothing that it could replace. |
| StripAnnotations.NoOpenerClosed | src/annotation/annotation.cpp:368-429 | After the loops for reads, searches and single lines no opener of the kind has a later closer. |
| StripAnnotations.WriteLeavesIff | src/annotation/annotation.cpp:325-341 | The write loop leaves an opener with a later closer if and only if, in its input, a closer but no quote follows the last opener and the annotation that the opener before it begins ends before it. |
| StripAnnotations.QuotedLeavesNone | src/annotation/annotation.cpp:325-341 | In particular none is left when every opener of the input has a closing quote. |
| StripAnnotations.UnquotedStays | src/annotation/annotation.cpp:325-341 | Inputs of that failing family: an opener without closing quote stays, with its closer after it. |
| StripAnnotations.StripWrite | src/annotation/annotation.cpp:325-341 | The loop in place, which ends on every text. |
| StripAnnotations.StripRead | src/annotation/annotation.cpp:368-379 | The loop in place, which ends on every text. |
| StripAnnotations.StripSearch | src/annotation/annotation.cpp:383-393 | The loop in place, which ends on every text. |
| StripAnnotations.StripLine | src/annotation/annotation.cpp:397-426 | The two loops in place, which end on every text. |
| StrReplaceLoop.EndsIffNoTrap | src/annotation/annotation.cpp:344-365 | The `str_replace` loop ends if and only if its input does not reach a trap: a text whose first annotation takes its path from behind its own end and finds there a path that holds an annotation. The test is a terminating function of the input. |
| StrReplaceLoop.RoundShrinks | src/annotation/annotation.cpp:344-365 | Every other round leaves fewer quotes, or as many quotes and fewer closers after the first opener. |
| StrReplaceLoop.TrapNeverEnds | src/annotation/annotation.cpp:344-365 | From such a text the loop runs for any number of rounds. |
| StrReplaceLoop.SafeIsNeverTrapped | src/annotation/annotation.cpp:344-365 | A text none of whose quoted paths holds an opener followed by a closer reaches no trap, so the loop ends on it. |
| StrReplaceLoop.ViciousNeverEnds | src/annotation/annotation.cpp:344-365 | Concrete inputs on which the loop never ends, such as `<str_replace </str_replace> path="<str_replace </str_replace>"`. |
| StrReplaceLoop.StripStrReplace | src/annotation/annotation.cpp:344-365 | The loop in place, on exactly the texts on which it ends. |
| AnnotationSummaries.AnnotationsAreSummarised | src/annotation/annotation.cpp:321-429 | In a text of complete annotations of all six kinds, in any order, each annotation becomes its summary, which names the path, line or text it holds, and the text between them is unchanged; in particular the loop that may diverge does not. |
| AnnotationSummaries.LoopSummarises | src/annotation/annotation.cpp:321-429 | One loop summarises the annotations of its kind, one in each round, leaves the others alone, and ends. |
| AnnotationSummaries.NoteStep | src/annotation/annotation.cpp:325-426 | The first annotation of a kind is replaced by its summary, wherever it stands. |
| AnnotationSummaries.Strip | src/annotation/annotation.cpp:321-429 | The six loops one after the other compute the function of that property. |
| MultiHost.RunIsSafe | src/provider/multi_host_provider.cpp:73-93 | Over any run of calls: the active index stays valid, the active host is healthy or none is, health never comes back, and a run that starts with h healthy hosts moves at most max(h - 1, 0) times. |
| MultiHost.FailoverIsComplete | src/provider/multi_host_provider.cpp:73-84 | Failover takes health from the active host only. It fails if and only if no host is healthy any more, and then moves nowhere; otherwise it moves to the nearest healthy host in cyclic order after the last. |
| MultiHost.SearchCovers | src/provider/multi_host_provider.cpp:76-82 | The indices (a + i) mod n visit every other host. |
| MultiHost.ChatStep | src/provider/multi_host_provider.cpp:86-93 | The answer of a call is the first host's when it is not empty, else the second's when a healthy host is left, else empty; a first host that fails costs exactly its own health, nothing else changes. |
| MultiHost.MultiHostProvider.constructor | src/provider/multi_host_provider.cpp:19-50 | With at least one host configured the state is valid; a host counts as healthy when it lists a model. |
| MultiHost.MultiHostProvider.FindHostForModel | src/provider/multi_host_provider.cpp:52-71 | The first healthy host with the model, else the first healthy host, else host 0. |
| MultiHost.MultiHostProvider.DoFailover | src/provider/multi_host_provider.cpp:73-84 | The method changes the fields as the failover above says. |
| MultiHost.MultiHostProvider.DoChat | src/provider/multi_host_provider.cpp:86-93 | The method asks the second host exactly after an empty answer and a successful failover. |
| ResponseStream.TransferDelivers | src/ollama/ollama.cpp:219-246 | For any split of the response: without a refusal the tokens delivered are those of the complete lines, `full_response` is their concatenation and the buffer is what follows the last newline; after a refusal exactly the tokens up to the refused one are delivered and accumulated. |
| ResponseStream.ChunksDoNotMatter | src/ollama/ollama.cpp:219-246 | A transfer in pieces ends in the state that the whole response in one piece leads to, but for what an aborted transfer never reads. |
| ResponseStream.TransferCounts | src/ollama/ollama.cpp:239-243 | For any split of the response the final counts are those of the last line that carries them: of all lines, or after a refusal of those before the refused one. |
| ResponseStream.DrainDelivers | src/ollama/ollama.cpp:221-245 | What one call of the receiver delivers from its buffer. |
| ResponseStream.Receiver.constructor | src/ollama/ollama.cpp:207-211 | The initial state. |
| ResponseStream.Receiver.Receive | src/ollama/ollama.cpp:219-246 | The loop changes the whole state as draining the buffer line by line does, and stops the transfer exactly on a refusal. |
| ResponseStream.TokenOfPrintedLine | src/ollama/ollama.cpp:229-230 | On a line with a printed message object the token is the string its content field was written from, whatever it holds. |
| ResponseStream.NoMessageNoToken | src/ollama/ollama.cpp:229-230 | A line without a `message` has no token. |

## Left out

- StreamRefinement.StreamRefinesBatch: assumes, of the untagged lines, that they hold no escape characters, no empty mermaid block and no blank before the tag `mermaid`, and that diagrams end outside an escape sequence; StreamDifferences gives inputs without the second and third on which the renderers differ.
- Session.LoadOfSave: the list that is loaded is given for roles that are read back as written, as the program's own roles are; for other roles only SessionRoles.SessionRoundTrip is stated, that the conversation does not come back.
- TagOutcome.ElementsAreRepaired: covers texts, bodies and bodies of inner elements that hold no further `<`, and one level of inner elements; the two self-closing tags are covered by TagRepair.RepairStep and TagRepair.RepairTag only. The repair is not idempotent and is not claimed to be.
- AnnotationSummaries.AnnotationsAreSummarised: covers annotations that are closed and hold no other annotation, and `write` and `str_replace` only with their attribute; without it those two loops are described by StripAnnotations.WriteLeavesIff and StrReplaceLoop.EndsIffNoTrap.
- TableGeometry.TableIsAligned: assumes cells without escape characters and links, as the bars of a row move by one column for each link before them; TableContents.TableShows gives the lines with links.
- OrgChart.LayoutOrgChart: the layers are stated for captions without arrow, semicolon and line break; other captions change the text that is parsed back.
- StrReplaceLoop.SafeIsNeverTrapped: one direction only; the exact condition is EndsIffNoTrap, which follows the texts the loop comes to; this one can be read off the input at a glance.
- ResponseStream.TransferDelivers: covers one request; after a failed connection `src/ollama/ollama.cpp:253-258` sends the request again with the same `buffer` and `full_response`, which then hold what the first attempt left. That second send is not modelled.
- ResponseStream.TokenOfPrintedLine: the token counts taken from the last line are not modelled; the line is kept instead.
- UnifiedDiff.ShowDiff: splitting the texts into lines, the decimal numbers of a header and the colours of its lines are not modelled; a printed line is a value.
- Json.DecodeString: an exception thrown by the conversion of a `\u` escape is an error value, and code points beyond 127 decode to nothing, as in the source.
- Base64.Encode: the shift of a negative or large accumulator is taken to wrap around in 32 bits and to be arithmetic.
- The Myers difference itself, HTTP, subprocesses, threads, signals, the file system and its errors.
- Reading indentation and captions from mindmap and org chart texts: the node lists are the input.
- Drawing boxes, arrows and diagrams, and the sequence, kanban, timeline and chart renderers.
- Output that a failed diagram renderer has already written, and the catch-all exception handlers of the renderers.
- `chat_stream` of the multi-host provider beyond its failover, which is that of `chat`: the shorter prompt for small models and tracing.
- Message images and ratings, which neither persistence format stores.
- Personal-data masking by regular expressions, delegation, confirmation dialogs and command dispatch: only easy members.
- The display width of multi-byte characters: the code counts bytes.
