# Bracket math for a markdown tree, in Dafny

This project models `remarkBracketMath`, the remark plugin that turns
bracket-delimited formulas into math nodes before a markdown tree is
typeset. The plugin walks the tree depth-first. Code, inline code and
raw html children are skipped; every other non-text child is walked
recursively. Each text child is scanned with the global regex
`/\[\[([\s\S]*?)\]\]|\[([^\]\[]+?)\]/g`. A match whose inner text passes
the `isMathLike` test becomes a formula: `math` (display) for `[[...]]`,
`inlineMath` for `[...]`. Inside a formula each `digit,digit` found left
to right without overlap becomes `digit.digit` (`1,2,3` becomes `1.2,3`). A match that fails the test is kept as text, brackets
included. When at least one match of a text child converted, the child is
spliced out of its parent's list in favour of the gap texts, the match
nodes and the remainder. The loop index then jumps past the inserted
nodes.

Modules, one file each:

- `Mdast` (`mdast.dfy`): the tree as a datatype.
- `Classifier` (`classifier.dfy`): the `isMathLike` regex test, as a
  predicate over the alternatives of the regex.
- `Normalizer` (`normalizer.dfy`): the `(\d),(\d)` global replace, as a
  recursive function with the cursor of the replace. It is characterised
  position by position through `ReplacedAt`.
- `BracketScanner` (`scanner.dfy`): the bracket regex with an explicit
  cursor.
  - `FindClose`, `FindBracket` and `MatchAt` give the answer of the
    anchored regex at one offset.
  - `Exec` is `regex.exec` from a cursor.
  - `Segments` and `ScanEnd` are the specification of the scan.
  - `ScanText` is the imperative `while (exec)` loop. It builds `newNodes`
    and tracks `anyReplace` and `lastIndex`, and it is proved equal to
    that specification.
- `Walker` (`walker.dfy`):
  - `Transform`, `TransformChildren` and `TextReplacement` specify what the
    walk does to a tree.
  - `Walk` and `VisitChild` are the imperative walk. They splice a local
    child list in place, with `i += newNodes.length - 1`.
  - `Splice` is `Array.prototype.splice(i, 1, ...newNodes)`.
- `WalkProperties` (`walk_properties.dfy`): whole-text and whole-tree
  properties. The replacement tiles the text, opaque nodes are kept, and
  a tree is unchanged exactly when nothing in it converts.
- `ScanExamples` (`scan_examples.dfy`): worked inputs.

## Model

| member | source | states |
|---|---|---|
| Classifier.IsMathLikeIff | src/App.jsx:54-57 | the `isMathLike` regex matches a payload exactly when it contains one of backslash, caret, underscore or a brace; the command-name alternatives add nothing |
| Classifier.EmptyIsNotMathLike | src/App.jsx:54-57 | the empty payload of `[[]]` is not math-like |
| Classifier.IsMathLike | src/App.jsx:54-57 | `regex.test(inner)`: some alternative of the regex matches at some offset; a math-like payload is never empty; `IsMathLikeIff` characterises it as holding one of the five signal characters |
| Normalizer.NormalizeDecimalComma | src/App.jsx:61 | the rewritten payload has the length of the original |
| Normalizer.NormalizeFrom | src/App.jsx:61 | the global replace from cursor i: the output has as many characters as `s` has from `i` on; `NormalizeFromAt` characterises it position by position |
| Normalizer.NormalizeFromAt | src/App.jsx:61 | from any cursor position the replace can reach, each output character is a dot where the left-to-right non-overlapping `(\d),(\d)` match rewrites the comma, and the input character elsewhere |
| Normalizer.NormalizeDecimalCommaAt | src/App.jsx:61 | position by position, the output is `.` exactly where `ReplacedAt` holds (a comma between two digits whose left digit was not consumed by the previous match) and the input character everywhere else |
| Normalizer.NormalizeOnlyRewritesDecimalCommas | src/App.jsx:61 | the length is kept, and a changed character was a comma between two ASCII digits and became a dot |
| Normalizer.NormalizeWithoutDecimalComma | src/App.jsx:61 | a payload with no digit-comma-digit is returned unchanged |
| Normalizer.NormalizeChainExample | src/App.jsx:61 | `1,2,3` becomes `1.2,3`: matches do not overlap |
| Normalizer.NormalizeThousandsExample | src/App.jsx:61 | `9,800` becomes `9.800`: there is no thousands-separator exception |
| BracketScanner.Match.Whole | src/App.jsx:41 | `match[0]` is the inner text with its two or four brackets |
| BracketScanner.Match.End | src/App.jsx:73 | `lastIndex = matchStart + wholeMatch.length`, proved in `MatchLengths` |
| BracketScanner.Match.IsDisplay | src/App.jsx:43 | `Boolean(match[1])`: display exactly for a `[[...]]` with a non-empty group, so `[[]]` is not display, proved in `MatchLengths` |
| BracketScanner.MatchLengths | src/App.jsx:41-43 | the cursor after a match is its start plus the length of `match[0]`, and a match is display iff it is a `[[...]]` whose `match[0]` is longer than its four brackets |
| BracketScanner.FindClose | src/App.jsx:33 | a found `]]` lies at or after the search offset |
| BracketScanner.FindCloseIsFirst | src/App.jsx:33 | the lazy `[\s\S]*?` stops at the first `]]`: there is none before the one found, and none at all when nothing is found |
| BracketScanner.FindBracket | src/App.jsx:33 | a found bracket lies at or after the search offset and inside the text |
| BracketScanner.FindBracketIsFirst | src/App.jsx:33 | no bracket lies before the one found, and there is none when nothing is found |
| BracketScanner.MatchAt | src/App.jsx:33 | an anchored match starts at its offset, ends inside the text and spans at least 3 characters, 4 for `[[...]]` |
| BracketScanner.MatchSpansWhole | src/App.jsx:41 | `match[0]` is exactly the text the match spans |
| BracketScanner.MatchAtIsRegexMatch | src/App.jsx:33 | the regex matches at p iff some `[[X]]` or some `[X]` (X non-empty and bracket-free, newlines allowed) starts there; `[[...]]` is preferred whenever it can match; it ends at the first `]]`, and `[...]` ends at the first `]` |
| BracketScanner.Exec | src/App.jsx:39-40 | a match found from the cursor starts at or after it, ends inside the text and is at least 3 characters long, so `lastIndex` strictly grows |
| BracketScanner.ExecIsLeftmost | src/App.jsx:39-40 | `exec` returns the regex match at the leftmost offset from the cursor on, and returns null only when the regex matches nowhere from there |
| BracketScanner.Segments | src/App.jsx:46-51 | every gap text pushed before a match is non-empty |
| BracketScanner.ScanEnd | src/App.jsx:39-73 | the cursor the loop ends with lies between its start and the end of the text, and `exec` finds nothing from it |
| BracketScanner.SegmentsCoverText | src/App.jsx:46-51 | content preservation: the gap texts and the raw matches in order, followed by the text from the final cursor on, give back the text |
| BracketScanner.SegmentsAreMatches | src/App.jsx:39-42 | every match the loop handles is the regex's match at its offset |
| BracketScanner.SegmentsStartAfter | src/App.jsx:39-40 | no match starts before the cursor the scan began from |
| BracketScanner.SegmentsAreOrdered | src/App.jsx:39-40 | matches come left to right without overlap: each ends at or before the next starts |
| BracketScanner.RenderSegment | src/App.jsx:46-71 | a gap becomes its text; a match becomes a formula iff its inner text is math-like, display for `[[...]]` and inline for `[...]`, carrying the normalized inner text; otherwise it stays text, brackets included |
| BracketScanner.RenderAll | src/App.jsx:46-71 | the nodes the loop pushes, one per segment in order (`RenderAllAt`), only text and formula nodes (`RenderAllIsFlat`) |
| BracketScanner.RenderAllAt | src/App.jsx:46-71 | rendering has one node per segment, and node k is the rendering of segment k |
| BracketScanner.RenderAllIsFlat | src/App.jsx:46-71 | the scan emits only text and formula nodes |
| BracketScanner.HasMathIffConverts | src/App.jsx:59-67 | the nodes hold a formula exactly when some match has a math-like inner text |
| BracketScanner.SegmentsStep | src/App.jsx:39-73 | one loop turn: the segments from the cursor are the gap, the match, and the segments past the match |
| BracketScanner.ScanStep | src/App.jsx:46-73 | one loop turn: the nodes from the cursor are the gap node, the node for the match, and the nodes past the match |
| BracketScanner.ScanText | src/App.jsx:33-74 | the loop builds exactly the rendered segments; `anyReplace` is set iff some pushed node is a formula; `lastIndex` ends at the scan's final cursor |
| Walker.Splice | src/App.jsx:82 | `splice(i, 1, ...newNodes)`: the siblings before i stay, the new nodes occupy the next `newNodes.length` places from i, and the siblings after the old child follow in order |
| Walker.SpliceResumesAtNextSibling | src/App.jsx:82-84 | after the splice and `i += newNodes.length - 1` (and the loop's `i++`), the prefix is the rewritten first j+1 original children and the suffix is the original children from j+1 on, so inserted nodes are never rescanned |
| Walker.SpliceSame | src/App.jsx:76-85 | not splicing is the same as splicing the child back in its own place |
| Walker.SpliceOne | src/App.jsx:86-88 | walking a child in place is a one-for-one replacement at its index |
| Walker.Remainder | src/App.jsx:78-79 | empty exactly when the scan ended at the end of the text; otherwise the single text node holding the non-empty rest of the text from the final cursor |
| Walker.TextReplacement | src/App.jsx:30-85 | what a text child turns into, never empty; characterised by `TextReplacementCases`, `TextReplacementTiles` and `TextReplacementIsFlat` |
| Walker.Transform | src/App.jsx:16-91 | the result of `walk`, equal to what `Walk` computes; its shape is in `TransformShape`, its properties in `TransformKeepsOpaque`, `TransformAddsFormulas` and `TransformUnchangedIffQuiet` |
| Walker.TransformChild | src/App.jsx:19-89 | what one child becomes in its parent's list: kept when opaque, its replacement when text, walked otherwise; shape in `TransformChildShape` |
| Walker.TransformChildren | src/App.jsx:18-89 | the rewritten child list, child by child; never shorter than the original (`TransformChildrenLonger`) |
| Walker.TransformChildrenPrefix | src/App.jsx:18 | handling one more child extends the rewritten prefix by that child's replacement |
| Walker.SplitText | src/App.jsx:30-80 | `anyReplace` holds iff the child's replacement holds a formula; then `newNodes`, remainder included, is that replacement; otherwise the child is its own replacement |
| Walker.VisitChild | src/App.jsx:19-89 | one loop turn keeps the loop invariant: the list is the rewritten first j original children followed by the original children from j on, and the index lands on the last node placed for child j |
| Walker.Walk | src/App.jsx:16-91 | the walk rewrites a node into `Transform(node)`: every non-opaque descendant child list is rewritten child by child, text children into their replacements |
| WalkProperties.TextReplacementCases | src/App.jsx:76-85 | a text child is replaced by the scanned nodes and the remainder when some match converts, and is kept as the single original node when none does |
| WalkProperties.TextReplacementTiles | src/App.jsx:46-80 | content preservation for a whole text child: its replacement renders a tiling of its text into gaps, matches and the non-empty remainder |
| WalkProperties.MatchInnerWithoutSignal | src/App.jsx:42-57 | the inner text of a match is a piece of the text, so a text with no signal character has no math-like match |
| WalkProperties.NoSignalNeverConverts | src/App.jsx:54-85 | a text with no backslash, caret, underscore or brace is never converted and never spliced |
| WalkProperties.FlatNodes | src/App.jsx:46-71 | a list of text and formula nodes holds no opaque node, and holds a formula iff its formula count is positive |
| WalkProperties.TextReplacementIsFlat | src/App.jsx:46-80 | a replacement holds no code, inline code or html node, and holds a formula iff the child converts |
| WalkProperties.TransformKeepsOpaque | src/App.jsx:22-28 | code, inline code and html nodes come out of the walk in the same order and unchanged, whatever their text |
| WalkProperties.TransformChildrenKeepOpaque | src/App.jsx:22-28 | the same for a child list |
| WalkProperties.TransformAddsFormulas | src/App.jsx:59-67 | the number of formula nodes in the tree never drops, and rises by at least one when some text child converts |
| WalkProperties.TransformChildrenAddFormulas | src/App.jsx:59-67 | the same count property for a child list |
| WalkProperties.QuietTransformIsIdentity | src/App.jsx:76-85 | a tree in which no text child converts comes out unchanged |
| WalkProperties.QuietChildrenUnchanged | src/App.jsx:76-85 | the same for a child list |
| WalkProperties.TransformUnchangedIffQuiet | src/App.jsx:16-91 | the walk leaves a tree unchanged exactly when no text child anywhere in it converts |
| WalkProperties.SignalFreeIsQuiet | src/App.jsx:19-85 | a tree whose text children hold no backslash, caret, underscore or brace has no text child that converts |
| WalkProperties.SignalFreeAllIsQuiet | src/App.jsx:19-85 | the same for a child list |
| WalkProperties.NoSignalTreeUnchanged | src/App.jsx:16-91 | no signal character, no change: such a tree comes out of the walk identical, whatever brackets it holds |
| WalkProperties.TextReplacementIsLeaves | src/App.jsx:46-80 | a text child turns only into text and formula nodes: never into code, inline code, html or a node with children |
| WalkProperties.TransformKeepsWellKinded | src/App.jsx:16-91 | the walk keeps a tree well kinded and keeps the kind of every parent it walks |
| WalkProperties.TransformChildrenKeepWellKinded | src/App.jsx:19-89 | the same for a child list |
| WalkProperties.TransformShape | src/App.jsx:16-91 | a parent stays a parent of the same kind, and any other node is returned as it is |
| WalkProperties.TransformChildShape | src/App.jsx:19-89 | a child never vanishes from the list; only a text child can become more than one node; an opaque child is kept as it is |
| WalkProperties.TransformChildrenLonger | src/App.jsx:18-89 | the walk drops no child: the rewritten list is never shorter than the original, and is empty only when the original is |
| ScanExamples.InlineExample | src/App.jsx:62-66 | `[x^2]` becomes one inline formula `x^2` |
| ScanExamples.DisplayExample | src/App.jsx:62-64 | `[[x^2]]` becomes one display formula `x^2` |
| ScanExamples.DecimalCommaScan | src/App.jsx:39-73 | the scan of `a [x_1,5] b` is the gap `a `, one `[...]` match at offset 2, and the cursor ends at 9 |
| ScanExamples.DecimalCommaRender | src/App.jsx:46-66 | that scan renders as the text `a ` and the inline formula `x_1.5` |
| ScanExamples.DecimalCommaExample | src/App.jsx:30-80 | `a [x_1,5] b` becomes `a `, the inline formula `x_1.5` and the remainder ` b` |
| ScanExamples.CitationExample | src/App.jsx:68-71 | `[citation 12]` stays text |
| ScanExamples.BareDecimalExample | src/App.jsx:54-71 | `[9,8]` stays text, its comma not rewritten |
| ScanExamples.EmptyDisplayExample | src/App.jsx:43-71 | `[[]]` stays text |

## Left out

- The `App` component (src/App.jsx:97-144) is not part of this model. It is UI and browser I/O: state, effects, `window.location`, the layout.
- `base64ToUtf8` (src/App.jsx:100-112) is not modelled. Its decoding is done by the browser's `atob` and `TextDecoder`.
- ReactMarkdown, remark-math, rehype-katex and KaTeX are not modelled. The tree is taken as the parser produced it, and the math nodes are not typeset.
- Object identity is not modelled. The tree is a value, and `Walk` returns the rewritten node where the plugin mutates the shared object. The loop's `node.children` is a local sequence that is spliced and written back, and a walked child is written back at its index.
- Node fields other than `type`, `value` and `children` (positions, data) are not modelled.
- Node kinds other than text, code, inline code, html and the two math kinds are one `Parent` constructor. A leaf kind such as a break is a `Parent` with no children, which the walk treats the same way. The walk does not look at a `Parent`'s kind, so a value such as `Parent("code", ...)` would be walked; `Mdast.WellKinded` excludes those values, which the parser never produces, and `TransformKeepsWellKinded` shows the walk never makes one.
- Strings are sequences of `char`, and a Dafny `char` is a Unicode scalar value, never a surrogate. A JavaScript string is a sequence of UTF-16 code units, so a string holding a character outside the Basic Multilingual Plane has no code-unit-for-code-unit counterpart here. No surrogate is a bracket, a digit or a signal character, so the nodes the walk builds are not affected. `\d` is the ASCII digits.
- The null check on the node (src/App.jsx:17) has no counterpart: a tree value is never null.
- Some behaviours have no code in the plugin and are not modelled: a recognizer that expands around backslash commands or sub- and superscripts up to sentence boundaries, a `mode` option choosing between recognizers, a switch that disables the decimal-comma rewrite, and a thousands-separator exception. `NormalizeThousandsExample` shows that `9,800` is rewritten.
- Three facts about the code that a reader might not expect:
  - `[^\]\[]` admits newlines, so a single-bracket formula can span lines (`MatchAtIsRegexMatch`).
  - `[9,8]` stays text: `9,8` holds no math signal, so the comma is not rewritten (`BareDecimalExample`).
  - Every command name in the `isMathLike` regex starts with a backslash, so the names add nothing beyond the backslash test (`IsMathLikeIff`).
- Walker.SplitText: says nothing about the nodes built when no match converts, because the plugin discards them.
