# Markdown parser and code highlighter of iinm.github.io, in Dafny

This project models the Markdown parser of the iinm.github.io site in its
four generations, together with the small code highlighter the site uses
for fenced code blocks:

- the newest parser, `www/iinm.github.io/lib/markdown.js`;
- the older `lib/markdown.js`, which has no `_`-italic segmenter;
- `src/markdown.ts`, which has no table and no raw HTML reader;
- `modules/markdown.js`, which tags links as `url` and has no code segmenter;
- `lib/code-highlight.js`;
- the three copies of `mergeInlineBlocks` in `posts/main.js`,
  `src/renderer.ts` and `src/renderer.js`.

A parse cuts the text at `"\n"` and hands the lines to a loop over a
registry of block readers. The first reader whose `match` accepts the
current line reads a block and says how many lines it consumed. If no
reader matches, the loop stops. Blockquotes and list items parse their
own lines again with the same loop. A paragraph line becomes a list of
inline segments. The chain of inline segmenters cuts the text around the
rightmost occurrence of the first segmenter that matches, then parses
both sides again. `mergeInlineBlocks` finally joins neighbouring
paragraph lines, putting a one-space text segment between them.

The four generations share the loop and differ only in their reader
registry and segmenter chain. The model therefore writes the loop once,
over a `Dialect`. Each generation is then one constant: `Dialects.Newest`,
`Dialects.Lib`, `Dialects.Src` and `Dialects.Modules`.

Modules:

- `Wrappers`: `Option`, `Result` and a first-index search.
- `JsText`: JavaScript's line terminators, white space, `split`, `join`
  and `trim`.
- `Syntax`: the block and segment types.
- `LinePatterns`: each line regex of the readers, as a predicate, plus
  the greedy capture the regex engine returns.
- `InlineParser`: the segmenters and `parseInline`.
- `InlineCases`: worked inputs of the segmenter chain.
- `BlockParser`: the readers and the loop.
- `BlockFacts`: properties of the readers and the loop.
- `InlineMerge`: `mergeInlineBlocks`.
- `Summary`: `firstHeadingAsString` and `firstParagraphAsString`.
- `Dialects`: the four generations and `parseMarkdown`.
- `CodeHighlight`: `highlightCode`.

A thrown `Error` is a `Failure`. The loop giving up early is a successful
run with `halted` set: the source logs a warning and returns the blocks it
has so far.

## Model

| member | source | states |
|---|---|---|
| Wrappers.FindIndex | www/iinm.github.io/lib/markdown.js:511 | `findIndex`: the index found satisfies the predicate and no earlier index does; no index means no element satisfies it |
| JsText.Split | www/iinm.github.io/lib/markdown.js:47 | `split("\n")` gives one more part than there are separators, and no part holds a separator |
| JsText.JoinSplit | www/iinm.github.io/lib/markdown.js:47 | joining the parts of a split with the separator gives back the text: cutting into lines loses nothing |
| JsText.SplitJoin | www/iinm.github.io/lib/markdown.js:47 | splitting a join of separator-free parts gives back the parts |
| JsText.Trim | www/iinm.github.io/lib/markdown.js:266 | `trim` returns a slice of the text with only white space around it, and the slice neither starts nor ends with white space; it adds no line terminator |
| LinePatterns.HeadingSplitGreedy | www/iinm.github.io/lib/markdown.js:115-121 | the heading capture exists exactly when `^#+ +.+$` matches, and it is the one the backtracking engine picks: the whole `#` run, with the longest space run that leaves text |
| LinePatterns.HeadingCapture | www/iinm.github.io/lib/markdown.js:118-127 | the heading level is at least 1 and the heading text is a non-empty suffix of the line |
| LinePatterns.QuoteMatchIff | www/iinm.github.io/lib/markdown.js:155-162 | the quote test stated through the greedy capture (the capture exists and something follows the `>`) holds exactly when `^ *> *.+$` matches; backtracking hands `.+` the last space |
| LinePatterns.QuoteSplitGreedy | www/iinm.github.io/lib/markdown.js:159-166 | the quote capture exists exactly on quote lines, and its cut is the greedy one |
| LinePatterns.ItemSplitGreedy | www/iinm.github.io/lib/markdown.js:180-199 | the list item capture exists exactly when the list match accepts the line, with the whole marker and the greedy space run |
| LinePatterns.ItemCapture | www/iinm.github.io/lib/markdown.js:188-199 | the marker is non-empty, the item text is a non-empty suffix, and at least a marker and a space precede it |
| LinePatterns.ContentIndentGreedy | www/iinm.github.io/lib/markdown.js:189-206 | a continuation line `^( +).+$` is recognised exactly when some indent leaves text, and its indent is the longest such |
| LinePatterns.FenceLanguage | www/iinm.github.io/lib/markdown.js:230-236 | the language of a fence line is the rest after the three backquotes |
| LinePatterns.TableLineShape | www/iinm.github.io/lib/markdown.js:260-263 | a table line has no line terminator and at least two `\|` |
| LinePatterns.HtmlTag | www/iinm.github.io/lib/markdown.js:317-323 | a tag is captured exactly when the line opens with `<` and a word character, and the tag is the whole run of word characters after `<` |
| LinePatterns.CloseTagShape | www/iinm.github.io/lib/markdown.js:325-328 | `</`, any spaces, the tag and `>` is a closing line of the tag |
| LinePatterns.InlineLineIff | www/iinm.github.io/lib/markdown.js:347-350 | the paragraph match `^ *.+$` accepts exactly the non-empty lines without a line terminator |
| LinePatterns.InlineSplitGreedy | www/iinm.github.io/lib/markdown.js:350-357 | the paragraph capture exists exactly on paragraph lines and skips the longest leading space run that leaves text |
| InlineParser.Bracketed | www/iinm.github.io/lib/markdown.js:400-432 | an image or link capture spells `[text](target)` at the head of the text, with no `]` in the text and no `)` in the target |
| InlineParser.Delimited | www/iinm.github.io/lib/markdown.js:434-491 | a bold, italic or code capture spells open, non-empty inner text, close at the head of the text, with no delimiter character inside |
| InlineParser.LeadShape | www/iinm.github.io/lib/markdown.js:398-492 | a segmenter's markup found at the head of a text spells back the segment it produces, and that segment is well formed |
| InlineParser.LastHitIs | www/iinm.github.io/lib/markdown.js:435 | the greedy leading `(.*)` picks the rightmost position at which the markup occurs |
| InlineParser.SegmentShape | www/iinm.github.io/lib/markdown.js:435-446 | a split puts back together to the input, namely before, the markup, after, and no occurrence starts to the right of the chosen one |
| InlineParser.SegmentNone | www/iinm.github.io/lib/markdown.js:435-447 | a segmenter returns `undefined` exactly when its markup occurs nowhere in the text |
| InlineParser.AfterHasNoOccurrence | www/iinm.github.io/lib/markdown.js:435-446 | the text after a split holds no further occurrence of the same segmenter's markup |
| InlineParser.FirstMatch | www/iinm.github.io/lib/markdown.js:387-393 | the segmenter used is the first of the chain that matches; every segmenter before it returns nothing |
| InlineParser.FirstMatchIs | www/iinm.github.io/lib/markdown.js:387-393 | conversely, a segmenter that matches after only non-matching ones is the one the loop uses |
| InlineParser.ParseInline | www/iinm.github.io/lib/markdown.js:385-395 | `parseInline` gives no segment exactly for the empty text, every segment is well formed, and no two text segments are neighbours |
| InlineParser.RoundTrip | www/iinm.github.io/lib/markdown.js:385-395 | rendering the segments back as Markdown gives the text parsed, for every chain without the `_`-italic segmenter |
| InlineParser.Unmatched | www/iinm.github.io/lib/markdown.js:394 | a text no segmenter matches is one text segment |
| InlineCases.ShortIsText | src/markdown.ts:266-276 | a text of one or two characters is one text segment, since every markup is at least three characters |
| InlineCases.NoBoldInStars | src/markdown.ts:318-331 | `**a*b*c**` holds no bold, because the only `**` pair encloses text with `*` |
| InlineCases.ItalicInStars | src/markdown.ts:333-346 | the rightmost `*`-italic of `**a*b*c**` is `*c*` |
| InlineCases.HeadSegments | src/markdown.ts:266-276 | `**a*b` parses to text `*`, italic `a`, text `b` |
| InlineCases.StarsAreNotBold | src/markdown.ts:266-276 | `**a*b*c**` parses to text `*`, italic `a`, text `b`, italic `c`, text `*`, not to bold, in every generation's chain |
| BlockParser.MatchesAreRegexes | www/iinm.github.io/lib/markdown.js:113-378 | each reader's `match`, stated through the line predicates, agrees with its regex stated directly |
| BlockParser.FirstReader | www/iinm.github.io/lib/markdown.js:84-87 | the reader used is the first of the registry that matches; when none matches, none of them does |
| BlockParser.ReadHeading | www/iinm.github.io/lib/markdown.js:113-133 | the heading reader fails exactly when its match fails, naming the line; otherwise it takes one line, the level is the whole `#` run and the text is what follows the space run the greedy capture picks |
| BlockParser.QuoteLines | www/iinm.github.io/lib/markdown.js:157-167 | the quote body is the capture of each consecutive quote line, up to the first line that is not one |
| BlockParser.ReadQuote | www/iinm.github.io/lib/markdown.js:153-176 | a blockquote takes exactly the run of quote lines, and its contents are the blocks of those lines' captures parsed again; it fails exactly when that parse fails |
| BlockParser.ScanList | www/iinm.github.io/lib/markdown.js:182-212 | the list scan stops at the first line that is neither an item start nor indented, and it closes one item per item start |
| BlockParser.ListItemLines | www/iinm.github.io/lib/markdown.js:182-211 | the lines the list reader gathers for each item are narrower than the list's own lines, so parsing them again ends |
| BlockParser.ReadList | www/iinm.github.io/lib/markdown.js:178-226 | a list takes the scanned lines, has one item per item start, and is unordered exactly when its first marker is `-`, `+` or `*`; item `j` is the blocks of the `j`-th item's lines parsed again, and the list fails exactly when one of those parses fails |
| BlockParser.ParseItems | www/iinm.github.io/lib/markdown.js:218-221 | item `j` is a list item holding the blocks of `items[j]` parsed again; it fails exactly when one item's parse fails |
| BlockParser.ReadCode | www/iinm.github.io/lib/markdown.js:228-257 | a code block runs through the first closing fence after the opening line, or to the end when there is none; its language is the rest of the opening line and its code is the lines between the fences |
| BlockParser.Pick | www/iinm.github.io/lib/markdown.js:268-271 | the alignment cells are the `n` cells after the first `\|`, and there are `n` of them exactly when the line has at least `n` bars |
| BlockParser.AlignOf | www/iinm.github.io/lib/markdown.js:276-284 | a cell is centred exactly when trimmed it starts `:-` and ends `-:`, and right-aligned exactly when it ends `-:` only |
| BlockParser.ReadRows | www/iinm.github.io/lib/markdown.js:287-301 | the body rows fail exactly at the first table line with too few cells, naming it; otherwise row `j` is line `c + j` cut into as many cells as the header |
| BlockParser.Rows | www/iinm.github.io/lib/markdown.js:287-300 | once every line has enough pieces, row `j` is the row read from line `c + j` |
| BlockParser.RowCells | www/iinm.github.io/lib/markdown.js:262-265 | cell `i` of a row is the piece after the row's `i + 1`-th bar, trimmed and parsed inline |
| BlockParser.ReadTable | www/iinm.github.io/lib/markdown.js:259-314 | the header is the first line's pieces between its outer bars, read as cells; the alignments are those of the next line's first pieces; row `j` is line `start + 2 + j` cut into as many cells as the header; the table takes every table line that follows; it fails exactly when the alignment line is missing or short or a row is short |
| BlockParser.ReadHtml | www/iinm.github.io/lib/markdown.js:316-343 | the raw HTML reader takes the lines through the first line that closes the tag, or to the end; but its text also holds the line after them |
| BlockParser.ReadHtmlIntended | src/markdown-html.test.ts:4-30 | the HTML block's text is exactly the lines it consumes |
| BlockParser.ReadInline | www/iinm.github.io/lib/markdown.js:345-364 | the paragraph reader fails exactly when its match fails; it takes one line, and its segments are the line without its leading spaces parsed inline |
| BlockParser.ReadAt | www/iinm.github.io/lib/markdown.js:87-93 | a reader consumes at least one line and no more than remain, so the loop always advances |
| BlockParser.ParseFrom | www/iinm.github.io/lib/markdown.js:82-108 | first match wins: each block is what the first reader of the registry that accepts the line at the block's cursor reads there, and the next block starts where it stopped; every block consumed at least one line; the counts reach the end of the input unless the loop halted; it halts only at a line no reader takes; only a generation with the table reader can fail |
| BlockParser.ParseBlocks | src/markdown.ts:1-19 | `parseBlocks` throws only in a generation that registers the table reader |
| BlockFacts.MatchNoTerminator | www/iinm.github.io/lib/markdown.js:113-378 | every reader but the raw HTML one matches only lines without a line terminator |
| BlockFacts.OnlyMatch | www/iinm.github.io/lib/markdown.js:84-87 | when a single reader matches a line, the loop uses it |
| BlockFacts.HaltIff | www/iinm.github.io/lib/markdown.js:97-105 | the loop stops at a line exactly when it is non-empty, holds a line terminator, and is no opening HTML tag for a generation with that reader |
| BlockFacts.ConsumesWholeDocument | www/iinm.github.io/lib/markdown.js:82-108 | on lines without terminators the loop never stops early and the blocks consume every line |
| BlockFacts.ListItems | www/iinm.github.io/lib/markdown.js:182-212 | the list items together are the item texts and the continuation lines with the first indent removed, in order |
| BlockFacts.CodeBlockSource | www/iinm.github.io/lib/markdown.js:228-257 | a closed code block's lines are the fence with its language, the code, and the closing fence |
| BlockFacts.HtmlExtraLine | www/iinm.github.io/lib/markdown.js:337 | the two HTML readers match the same lines and consume the same count; the text as written equals the intended text plus a newline and the next line when one follows |
| BlockFacts.HtmlExtraLineExample | www/iinm.github.io/lib/markdown.js:316-343 | on `<p>`, `</p>` and an empty line, the reader as written gives `<p>\n</p>\n`; the intended one gives `<p>\n</p>` |
| InlineMerge.Merge | posts/main.js:168-183 | after merging no two paragraph blocks are neighbours; the non-paragraph blocks are kept in order; the result is empty exactly when the input is |
| InlineMerge.MergeLength | src/renderer.ts:167-182 | merging removes exactly one block per pair of neighbouring paragraph blocks |
| InlineMerge.StepStructural | src/renderer.js:155-170 | one loop step appends a non-paragraph block unchanged and never drops one |
| InlineMerge.MergeIsMergeRuns | posts/main.js:168-183 | the left-to-right loop equals an independent definition: each maximal run of paragraph blocks becomes one block whose segments are the run's, joined by one-space text segments |
| InlineMerge.MergeSeparated | www/iinm.github.io/lib/markdown.js:55-76 | blocks without neighbouring paragraphs are left unchanged |
| InlineMerge.MergeIdempotent | www/iinm.github.io/lib/markdown.js:55-76 | merging twice is merging once |
| Summary.FirstHeading | www/iinm.github.io/lib/markdown.js:500-504 | the result is the text of the first heading block, and there is none exactly when no block is a heading |
| Summary.FirstParagraph | www/iinm.github.io/lib/markdown.js:510-528 | there is a first paragraph exactly when some block is a paragraph |
| Summary.RunLeads | www/iinm.github.io/lib/markdown.js:510-528 | from a paragraph block on, the result is the texts of the consecutive paragraph blocks joined by one space |
| Summary.RunText | www/iinm.github.io/lib/markdown.js:515-527 | the text of a merged run is its lines' texts joined by one space |
| Summary.FirstHeadingMerged | www/iinm.github.io/lib/markdown.js:500-504 | merging paragraph lines does not change the first heading |
| Summary.FirstParagraphMerged | www/iinm.github.io/lib/markdown.js:510-528 | merging paragraph lines does not change the first paragraph's text |
| Dialects.ParseMarkdown | www/iinm.github.io/lib/markdown.js:46-49 | `parseMarkdown` returns blocks without neighbouring paragraphs, and fails only in a generation with the table reader |
| Dialects.TablelessNeverFails | src/markdown.ts:1-19 | the generations without a table reader never throw |
| Dialects.ReadsWholeText | www/iinm.github.io/lib/markdown.js:46-49 | on a text whose only line terminator is `\n`, every line is read into some block |
| Dialects.ParseMarkdownMerged | lib/markdown.js:11-14 | the result of `parse` is already merged: merging it again changes nothing |
| Dialects.SummariesIgnoreMerge | www/iinm.github.io/lib/markdown.js:46-49 | the first heading and the first paragraph of `parseMarkdown`'s result are those of the unmerged blocks |
| Dialects.EmptyDocument | www/iinm.github.io/lib/markdown.js:366-378 | the empty text is one empty-line block in every generation, not no block |
| Dialects.RuleTakesBlank | www/iinm.github.io/lib/markdown.js:135-151 | an empty line followed by three or more `-` is one horizontal rule that consumes both lines |
| Dialects.DashesAloneAreText | modules/markdown.js:121-135 | three or more `-` with no empty line before them are a paragraph line |
| Dialects.TablelessParagraph | src/markdown.ts:204-224 | in a generation without table and HTML readers, a line starting with `\|` or `<` is a paragraph line |
| Dialects.StopsAtFirstLine | www/iinm.github.io/lib/markdown.js:97-105 | a first line that no reader takes yields no block at all |
| Dialects.CrlfText | www/iinm.github.io/lib/markdown.js:47 | a text whose first line ends in `\r\n` yields no block: the `\r` stays in the line and `.` does not match it |
| Dialects.UnderscoreItalic | www/iinm.github.io/lib/markdown.js:463-476 | for every non-empty one-line `t` without `_`, `*`, `[`, `!` or a backquote, `_t_` is italic `t` in the newest parser and one text segment in lib/markdown.js, which lacks the `_` segmenter |
| Dialects.UnderscoreNotRestored | www/iinm.github.io/lib/markdown.js:463-476 | for every such `t`, rendering the newest parser's segments of `_t_` gives `*t*`: the `_` form is not restored, which is why the round trip excludes it |
| Dialects.OnlyUnderscoreMatches | www/iinm.github.io/lib/markdown.js:398-492 | for every such `t`, only the `_` segmenter matches `_t_`, splitting it into empty before, italic `t` and empty after |
| CodeHighlight.LineCommentAtMeans | lib/code-highlight.js:83-94 | a `#` or `//` comment match starts a line, skips its blanks, starts with the marker and runs to the end of its line |
| CodeHighlight.HeadingAtMeans | lib/code-highlight.js:163-174 | a heading match starts a line, skips blanks to a `#` and runs to the end of its line |
| CodeHighlight.SelectorAtMeans | lib/code-highlight.js:196-207 | a selector match starts a line and skips blanks; the selector is a run of non-blank, non-`{` characters; blanks and `{` follow it |
| CodeHighlight.QuotedAtMeans | lib/code-highlight.js:55-66 | a quoted match at an index is exactly a quote, text free of that quote and of backslashes, and a quote |
| CodeHighlight.EnclosedAtMeans | lib/code-highlight.js:97-109 | a block comment match runs from the opener to the first closer after it |
| CodeHighlight.TagAtMeans | lib/code-highlight.js:229-240 | a tag match is `<` or `</` followed by the longest run of `-` and word characters |
| CodeHighlight.KeywordAtMeans | lib/code-highlight.js:112-123 | a keyword match is one of the listed words, standing between word boundaries |
| CodeHighlight.Leftmost | lib/code-highlight.js:113 | a highlighter's match is at the leftmost index where its pattern matches |
| CodeHighlight.Apply | lib/code-highlight.js:112-123 | a highlighter's segment is non-empty and of the highlighter's kind; except for the heading, before, segment and after spell the code again |
| CodeHighlight.FirstCut | lib/code-highlight.js:39-49 | the highlighter used is the first of the list that returns a segment |
| CodeHighlight.HighlightSegment | lib/code-highlight.js:35-52 | `highlightSegment` gives no piece exactly for the empty code, and never an empty piece |
| CodeHighlight.HighlightFirstWins | lib/code-highlight.js:39-49 | when a highlighter is the first that matches, the result is the highlighted before, its segment and the highlighted after |
| CodeHighlight.HighlightPlain | lib/code-highlight.js:51 | code no highlighter matches is one plain piece |
| CodeHighlight.Lossless | lib/code-highlight.js:35-52 | for every list without the markdown heading highlighter, the pieces' texts spell the code again |
| CodeHighlight.PlainPiecesUnmatched | lib/code-highlight.js:35-52 | every plain piece is text that no highlighter of the list matches |
| CodeHighlight.KindsFromList | lib/code-highlight.js:35-52 | every typed piece has the kind of some highlighter of the list |
| CodeHighlight.OwnNotInherited | lib/code-highlight.js:126-245 | none of the table's languages is a name every object inherits |
| CodeHighlight.HighlightCode | lib/code-highlight.js:14-20 | `highlightCode` throws exactly when the language is an inherited name and the code is non-empty; a language outside the table gives the code as one plain piece |
| CodeHighlight.HighlightCodeLossless | lib/code-highlight.js:14-20 | apart from markdown, whatever `highlightCode` returns spells the code again |
| CodeHighlight.HighlightCodeIntended | lib/code-highlight.js:14-20 | the corrected `highlightCode` always spells the code again |
| CodeHighlight.HeadingDuplicatesBlanks | lib/code-highlight.js:163-174 | on an indented heading, the markdown highlighter as written returns the blanks twice, so its pieces do not spell the code |
| CodeHighlight.HeadingIntendedSplits | lib/code-highlight.js:163-174 | the corrected heading highlighter returns the blanks as plain text and the heading from its `#` |

## Left out

- DOM rendering, the UI components, and the `console.warn` of the loop: they are output only; the model keeps the early stop as `halted`.
- `Syntax.Block`: leaf blocks carry no `contents` field. The older generations put `contents: []` on some leaves, which changes no property stated here.
- `InlineMerge.Merge`: the source mutates the previous block's `props.segments` in place, and so aliases the input. The model builds new blocks, so that aliasing is not modelled.
- `InlineMerge.Merge`: like the source, it merges only top-level blocks. Paragraphs nested in blockquotes and list items are left unmerged, and no property about them is stated.
- The general JavaScript regex engine. Every regex of the core is modelled by hand as a predicate plus the capture the backtracking engine returns; other regexes are not covered.
- `InlineParser.ParseInline`: it requires its text to have no line terminator. Every caller meets this (a line's capture or a trimmed table cell). With a terminator, the unanchored `(.*)` would drop text, and that case is not modelled.
- `InlineParser.RoundTrip`: it excludes the `_`-italic segmenter, whose italic renders back as `*…*` (`Dialects.UnderscoreNotRestored` shows it).
- `CodeHighlight.Highlighter`: highlighters are a subset type that requires usable parameters (a non-empty comment marker, a non-backslash quote, non-empty delimiters, word-character keywords). The table's own highlighters all meet this; others are not modelled.
- `CodeHighlight.HighlightCode`: of the lookups that reach inherited properties, only the `Object.prototype` names are modelled. Properties a host adds to `Object.prototype` are not.
- `Dialects.UnderscoreItalic`: the difference between the generations' chains is stated for `_t_` with markup-free `t`, not for texts that mix `_` with other markup.
- `InlineCases.StarsAreNotBold`: the nested-emphasis behaviour is shown on `**a*b*c**` and `**a*b`, not stated for every input.
- `Summary.FirstParagraph`: its contract states only when a paragraph exists; the text is stated by `Summary.RunLeads` and `Summary.RunText`.
- `Dialects.ReadsWholeText`, `Dialects.StopsAtFirstLine`, `Dialects.CrlfText`: they are stated for the four generations and the corrected newest one, not for an arbitrary registry.

## Findings

| source | as written | input that shows it | evidently intended | confidence | as-written member | corrected member |
|---|---|---|---|---|---|---|
| www/iinm.github.io/lib/markdown.js:337 | the raw HTML text is `lines.slice(start, cursor + 1)`, but `cursor` is already one past the closing line, so the line after the block joins the text (same at lib/markdown.js:301) | the lines `<p>`, `</p>` and an empty line give the HTML `<p>\n</p>\n` | the text is exactly the consumed lines, `<p>\n</p>`, as src/markdown-html.test.ts:29 expects | not executed; high | BlockFacts.HtmlExtraLineExample | BlockParser.ReadHtmlIntended |
| lib/code-highlight.js:168-169 | the heading segment is `match[0]`, which starts with the leading blanks, while `before` ends with the same blanks | the markdown code `  # a` gives the pieces `  ` and `  # a` | the segment starts at the `#` run (`match[2] + match[3]`), so the pieces spell the code | not executed; high | CodeHighlight.HeadingDuplicatesBlanks | CodeHighlight.HeadingIntendedSplits |
| lib/code-highlight.js:15-16 | `highlighters[language]` also finds names inherited from `Object.prototype` (section 20.1.3 and Annex B.2.2 of ECMA-262); the function found is truthy, and `for … of` over it throws a `TypeError` | `highlightCode("x", "toString")` | an unknown language gives the code as one plain piece | not executed; high | CodeHighlight.HighlightCode | CodeHighlight.HighlightCodeIntended |
