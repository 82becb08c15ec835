# Markdown to pretty HTML: a verified model of `converter.js`

This project models the conversion engine of `converter.js`, a converter from
Markdown to an indented HTML fragment in which every heading becomes a
collapsible `<details>` section. The model has two parts.

- **The inline transformer** `inlineMarkdown` (module `Inline`, facts in
  `InlineFacts`) is pure. First it escapes the text with `escapeHtml` (module
  `Escape`). Next it moves every code span into a side table and leaves a NUL-framed
  placeholder in its place. Then it applies the image, link, bold, underline,
  italic and strike rules. Finally it restores the code spans, escaping them a
  second time, and applies the colour and highlight rules. All of these
  regular expressions are written as hand-made matchers, one `Rule` per
  `replace`.
  - `InlineMarkdown` returns an `Option`. `None` is the `TypeError` the
    source throws when the input itself contains a placeholder-shaped token
    that names no code span.
- **The block parser** `markdownToPrettyHtml` is imperative. Its local state
  becomes the fields of the class `Parser.Converter`:
  - the output lines `out`;
  - the heading stack `stack` and the list stack `listStack`;
  - the buffers `paraBuf`, `blockquoteBuf` and `tableBuf`;
  - the flags and the fence language.

  Each inner closure (`push`, `flushParagraph`, `flushTable`) and each branch
  of the main loop is a method. Each method's `ensures` gives the new state in
  terms of pure functions:
  - `Blocks`: the line classifiers, one per regular expression.
  - `Stacks`: the stack unwinding and its invariants.
  - `Render`: the lines each construct emits.
  - `Parser.KindOf`: which branch of the main loop a line takes. One pass of
    the loop, `Parser.Converter.Step`, is specified per kind of line
    (`RuleEffect`, `FenceEffect`, `CodeEffect`, `HeadingEffect`, `ItemEffect`,
    `OtherEffect`). For each kind it states the lines appended to `out` and
    the new stacks, buffers and flags.
  - `Parser.PlainEffect` and `Parser.RowEffect`: what the lines after the
    list and alert tests (converter.js:210-239) emit and buffer.

  The inline transformer enters the parser as a parameter `inline`. The
  parser's contracts are stated for every such function that meets
  `Parser.SafeInline`. That condition says a result, once dedented, never
  starts like a line that opens or closes a section or a list.
  `Parser.Classify` reads that from the first four characters of a line.
  A ghost sequence `marks` records the class of each output line as it is
  pushed, and `Parser.TaggedLines` keeps it equal to the classes of `out`.
  So the balance of `<details>`, `<ul>` and `<ol>` is proved on the output
  lines themselves.
- **The pipeline** (module `Pipeline`) plugs `inlineMarkdown` into the
  parser. It proves that `inlineMarkdown` meets `SafeInline`: the escaped
  text has no `<`, and every replacement a rule writes starts with a tag
  that is not counted.
- **Code spans on their way** (module `CodeTokens`): the span rules move
  every code-span placeholder whole. So each span is restored exactly once,
  and the transformer never throws on text without NUL characters.

Quirks of the source that the model keeps:
- `inlineMarkdown` throws a `TypeError` on input that already contains a
  placeholder token naming no code span (converter.js:43,
  `InlineFacts.StrayPlaceholderThrows`). On text without NUL characters it
  never throws (`CodeTokens.InlineTotal`).
- The colour and highlight rules run after the code spans are restored
  (converter.js:43 before 46-68). So `@@x@@` inside a code span becomes a
  coloured span inside `<code>` (`InlineFacts.ColourInCode`). The other
  rules run before the restore and leave code content alone.
- At the end of the document only the lists, the paragraph and the sections
  are closed (converter.js:243-245). A pending blockquote or table stays in
  its buffer and never reaches the output (`Parser.Converter.Finish`).
- The blockquote and table buffers are flushed only by a line that reaches
  converter.js:217 or 231. Headings, rules, fences, code lines and list
  items leave them alone (`HeadingEffect` and the others keep `Buffers()`
  except the paragraph). So `| a |`, `> q`, `z` emits the blockquote before
  the table (`Parser.QuoteBeforeTable`). In `> q`, `# H`, `z` the
  blockquote is emitted inside the new section.
- Lists are closed only by a line that reaches converter.js:176, or at the
  end of the document. Headings, rules, fences and code lines leave the
  list stack as it is (their effects keep `listStack`).
- The list pop loop (converter.js:164) pops an entry of the other kind at
  any level, not only at an equal level (`Stacks.UnwindLists`).
- `flushTable` drops every empty cell (converter.js:104, 110), not only the
  leading and trailing fragments (`Render.EmptyCellDropped`).
- The horizontal-rule test (converter.js:125) runs before the code-fence
  state is consulted. So a `---` line inside a fenced block emits `<hr>`
  rather than escaped text (`Parser.RuleInFence`, `RuleEffect`).
- The fence language is written into the `class` attribute unescaped
  (converter.js:135).

Modules:
- `Wrappers`: `Option`.
- `Strings`: ECMAScript `\s`, `trim`, `split`, `join`, decimal digits, line splitting.
- `Escape`, `Inline`, `InlineFacts`, `CodeTokens`, `Blocks`, `Stacks`,
  `Render`, `Parser`, `Pipeline`: as above.

## Model

| member | source | states |
|---|---|---|
| Escape.EscapeHtmlIsEscapeEach | converter.js:4-10 | The chain of five global replacements equals replacing each character by its entity in a single pass. |
| Escape.EscapeHtmlNoRawMeta | converter.js:4-10 | The escaped text contains no raw `<`, `>`, `"` or `'`. |
| Escape.EscapeHtmlAmpersands | converter.js:4-10 | Every `&` in the escaped text begins one of the five entities. |
| Escape.EscapeHtmlPlain | converter.js:4-10 | Text without any of the five special characters is returned unchanged. |
| Escape.UnescapeEscapeHtml | converter.js:4-10 | Decoding the five entities recovers the original text, so escaping loses nothing. |
| Escape.EscapeHtmlAppend | converter.js:4-10 | Escaping distributes over concatenation. |
| Escape.EscapeHtmlKeeps | converter.js:4-10 | A character that is neither special nor used in an entity name is in the escaped text exactly when it is in the original. |
| Escape.DoubleEscapeLt | converter.js:43 | Example: escaping `<` twice, as code-span content is, gives `&amp;lt;`. The all-input statements are EscapeHtmlIsEscapeEach and InlineFacts.RestoreCodeToken. |
| Inline.MatchDelimited | converter.js:19-40 | A match of `D([^x]+)D` at the start of the text has content of the stated shape. |
| Inline.MatchDelimitedComplete | converter.js:19-40 | MatchDelimited finds every match of `D([^x]+)D` at the start of the text, with its exact length. |
| Inline.MatchWrappedAt | converter.js:28-40 | Every run of a delimited pattern (bold, bold italic, underline, strike) is matched whole and becomes the rule's opening tag, the content, then its closing tag. |
| Inline.ImageSpan | converter.js:22 | A found image is `![`, alt text without `]`, `](`, a non-empty URL without `)`, then `)` (`ImageAt`). |
| Inline.ImageSpanComplete | converter.js:22 | Conversely, every such image at the start of the text is found, with its alt and URL lengths. |
| Inline.LinkSpan | converter.js:25 | A found link is `[`, non-empty text without `]`, `](`, a non-empty URL without `)`, then `)` (`LinkAt`). |
| Inline.LinkSpanComplete | converter.js:25 | Conversely, every such link at the start of the text is found, with its text and URL lengths. |
| Inline.EmSpan | converter.js:36-37 | A found emphasis satisfies `EmAt`: delimiter, a non-empty run without it, the delimiter, and no third delimiter after it. |
| Inline.EmSpanComplete | converter.js:36-37 | Conversely, every emphasis satisfying `EmAt` is found, with its exact length. |
| Inline.MatchItalicSound | converter.js:36-37 | An italic match is one of the two alternatives of `(^\|[^d])`: an emphasis at the start of the line, or one non-`d` character and then an emphasis. It is replaced by that character (if any), then `<em>` + content + `</em>`. |
| Inline.MatchItalicComplete | converter.js:36-37 | Conversely, an emphasis at the start of the line, or after a character other than `d`, is matched with exactly that replacement. |
| Inline.MatchEm | converter.js:36-37 | An emphasis match is `d`, a non-empty run without `d`, then `d` not followed by another `d` (`EmAt`). It becomes the consumed prefix, then `<em>` + the run + `</em>`. |
| Inline.MatchRule | converter.js:22-68 | A rule's match lies within the text, and the text contains the rule's trigger character. Every rule except the two italic ones matches only where the trigger character starts the text. |
| Inline.HexColour | converter.js:48 | A colour prefix is `#` and three or six hex digits, at a word boundary. |
| Inline.HexColourComplete | converter.js:48 | Conversely, `#` and three hex digits at a word boundary is found as a 4-character colour. Failing that, `#` and six hex digits at a boundary is found as a 7-character colour. |
| Inline.StyledSpanColour | converter.js:46-65 | A run that opens with a colour becomes a span styled with that colour, holding the rest with its leading blanks dropped. |
| Inline.StyledSpanDefault | converter.js:54-67 | A run that does not open with `#` becomes a span in the default colour, holding the whole run. |
| Inline.ExtractCode | converter.js:18-19 | Extraction only appends to the side table, and every span it records is non-empty and backtick-free. |
| Inline.CodeSpanAt | converter.js:19 | A code span's content is non-empty and holds no backtick. |
| Inline.MatchPlaceholder | converter.js:43 | A placeholder token starts with `\0CODE`, has at least one digit and only digits, ends with `\0`, and lies within the text. The digits returned are those between the prefix and the final `\0`. |
| InlineFacts.RewriteInert | converter.js:22-68 | A rule leaves alone any text without its trigger character. |
| InlineFacts.SpanRulesInert | converter.js:22-40 | The span rules leave unchanged any text without `!`, `[`, `*`, `_` or `~`. |
| InlineFacts.PlaceholderInert | converter.js:19-40 | A placeholder contains none of the characters the later rules react to, so they cannot rewrite it. |
| InlineFacts.ExtractThenRestore | converter.js:19-43 | On NUL-free text, extraction followed by restoration never throws, and it replaces each code span by `<code>` + its escaped content + `</code>`, leaving the other characters alone. |
| InlineFacts.MatchPlaceholderAt | converter.js:19-43 | The restore pattern reads back exactly the token that extraction wrote, index included. |
| InlineFacts.RestoreCodeToken | converter.js:43 | A token naming a recorded span restores to `<code>` + that span escaped + `</code>`. |
| InlineFacts.CodeSpansProtected | converter.js:13-71 | For text made of plain pieces and code spans, the result is each plain piece escaped and each code span escaped twice inside `<code>`. No other rule alters code-span content. |
| InlineFacts.ColourInCode | converter.js:43-56 | `@@x@@` inside a code span comes out as a red span inside `<code>`, because the colour rule runs after the restore. |
| InlineFacts.ColourCodeRewrite | converter.js:46-68 | On a restored `<code>@@x@@</code>`, the colour rule writes the span inside the code element and the highlight rule leaves the line alone. |
| InlineFacts.InlineEmpty | converter.js:14 | The empty text yields the empty string. |
| InlineFacts.CodeSpanAlone | converter.js:13-71 | A lone code span renders as `<code>` + content escaped twice + `</code>`. |
| InlineFacts.CodeKeepsSyntax | converter.js:19-43 | A code span without HTML special characters is output literally inside `<code>`, Markdown syntax included. |
| InlineFacts.CodeEscapedTwice | converter.js:15-43 | Example: `` `<` `` renders as `<code>&amp;lt;</code>`, which shows the double escaping of code content. The all-input statement is RestoreCodeToken. |
| InlineFacts.StrayPlaceholderThrows | converter.js:43 | Input that is itself a placeholder token, with no code span to name, makes the transformer throw (no result). |
| CodeTokens.ExtractTokens | converter.js:19 | Extraction from NUL-free text leaves exactly one placeholder per new span, numbered in order. |
| CodeTokens.HitKeeps | converter.js:22-40 | Any match of a span rule keeps the placeholders it covers: the same indices, each as often. |
| CodeTokens.ImageHit | converter.js:22 | An image's replacement keeps its placeholders, with the URL's first and the alt text's second. |
| CodeTokens.LinkHit | converter.js:25 | A link's replacement keeps its placeholders, with the URL's first and the link text's second. |
| CodeTokens.RewriteKeeps | converter.js:22-40 | Each span rule keeps the multiset of placeholders of any text whose NULs all start placeholders. |
| CodeTokens.SpanRulesKeeps | converter.js:22-40 | The span rules together keep the multiset of placeholders. |
| CodeTokens.RestoreTotal | converter.js:43 | Restoration succeeds when every placeholder names a recorded span. |
| CodeTokens.CodeSpansSurvive | converter.js:15-43 | On any NUL-free text, after the span rules every code span's placeholder is present exactly once, so each span is restored exactly once. |
| CodeTokens.InlineTotal | converter.js:13-71 | `inlineMarkdown` never throws on text without NUL characters. |
| Strings.TrimShape | converter.js:104 | `trim` keeps the piece between the leading and trailing whitespace runs, and that piece neither starts nor ends with whitespace. |
| Strings.TrimEmpty | converter.js:205 | A string trims to empty exactly when it is all whitespace. |
| Strings.TrimStartShape | converter.js:51 | `trimStart` removes exactly the leading whitespace run. |
| Strings.JoinSplit | converter.js:104 | Splitting on `\|` and joining on `\|` gives the row back. |
| Strings.SplitJoin | converter.js:104 | Splitting a join of bar-free cells gives the cells back. |
| Strings.CanonicalIndexRoundTrip | converter.js:19-43 | The digits written for span index `n` are read back as `n`. |
| Strings.NormalizeNewlines | converter.js:75 | After `\r\n` and lone `\r` are replaced, no carriage return is left. What the result holds is stated by NormalizeStep and NormalizePrefix. |
| Strings.NormalizeStep | converter.js:75 | Text without CR up to a line break is kept, and the break, whether `\n`, `\r\n` or a lone `\r` not followed by `\n`, becomes one `\n` before the normalised rest. |
| Strings.NormalizePrefix | converter.js:75 | Text without CR in front of the rest is kept unchanged. |
| Strings.NormalizeJoin | converter.js:75 | Lines joined by `\r\n` normalise to the same lines joined by `\n`. |
| Strings.Lines | converter.js:75 | The document splits into at least one line, and no line contains a line break. Which lines they are is stated by LinesJoin and LinesOfJoin. |
| Strings.LinesJoin | converter.js:75 | The lines joined by `\n` are exactly the normalised document, so nothing is lost, added or reordered. |
| Strings.LinesOfJoin | converter.js:75 | A document written as break-free lines separated by `\r\n` is read back as exactly those lines. |
| Blocks.HorizontalRuleFrame | converter.js:125 | Whitespace, then `***`, `---` or `___`, then whitespace, is a horizontal rule. |
| Blocks.HorizontalRuleShape | converter.js:125 | Conversely, every horizontal rule has that shape. |
| Blocks.FenceLanguage | converter.js:135 | The language is what remains of the line after the three backticks, once the leading and trailing whitespace runs are removed. It neither starts nor ends with whitespace. |
| Blocks.FenceLanguageFrame | converter.js:132-135 | Conversely, three backticks, whitespace, a language, whitespace is a fence with that language. |
| Blocks.MatchHeading | converter.js:140-143 | The heading match succeeds with level `k` and the trimmed text exactly when the line is `k` (1 to 6) `#`s, whitespace, then text without a line break. |
| Blocks.HeadingLevelUnique | converter.js:140-142 | The heading level is the number of leading `#`s. |
| Blocks.ItemLevel | converter.js:160 | The level is at least 1 and `2*(level-1) <= indent < 2*level`, that is `floor(indent/2)+1`. |
| Blocks.ListMarker | converter.js:156-161 | A found marker is a bullet or digits then a dot, of the stated kind; `ul` exactly when it is a bullet. |
| Blocks.ListMarkerComplete | converter.js:156-161 | Conversely, every bullet or digits-and-dot marker is found, whatever follows it, with its length and kind. |
| Blocks.ListItemIndent | converter.js:156-159 | The indent is the whole leading whitespace run of the line. |
| Blocks.ListItemKind | converter.js:161 | The item is `ul` exactly when its first non-blank character is a bullet, and `ol` items start with a digit. |
| Blocks.ListItemText | converter.js:156-162 | The item line is its indentation (all whitespace), the marker, a non-empty whitespace run, then the text (`ItemShape`). The text has no line break and does not start with whitespace, so it is exactly what follows the whole blank run. |
| Blocks.ItemShapeFrame | converter.js:156-162 | A line decomposed as indentation, marker, blanks and text has that shape. |
| Blocks.ListItemFrame | converter.js:156-162 | Conversely, every line of that shape is a list item, with that indentation, kind and text. |
| Blocks.QuoteContentSuffix | converter.js:211 | The quoted content is a proper suffix of the line without a leading blank. |
| Blocks.QuoteContentPrefix | converter.js:211 | What precedes the quoted content is leading whitespace, one maximal run of `>`, then whitespace (`QuoteShape`). With QuoteContentSuffix (no leading blank) this pins the content. |
| Blocks.QuoteShapeFrame | converter.js:211 | A line decomposed as whitespace, a run of `>`, whitespace and content has that shape. |
| Blocks.QuoteRestSuffix | converter.js:211 | What follows the quote marker is a proper suffix of the line without a leading blank. |
| Blocks.QuoteRestFrame | converter.js:211 | Whitespace, `>`, whitespace, then text gives that text as the content. |
| Blocks.QuoteContentsStep | converter.js:196-199 | Each consumed quote line appends its content last. |
| Blocks.MatchTag | converter.js:180 | The tag matches a kind exactly when the text starts with that kind's keyword in any ASCII case followed by `]`. |
| Blocks.TagUnique | converter.js:180 | At most one of the five keywords matches. |
| Blocks.CalloutFrame | converter.js:180 | Whitespace, a run of `>`, whitespace, `[!tag]` with the keyword in any ASCII case, whitespace, then text without a line break is a callout of that kind whose first line is that text. |
| Blocks.CalloutFirstSuffix | converter.js:180-193 | A callout's first body line is a suffix of its line. Its steps are TagPartSuffix and AlertFirstSuffix. |
| Blocks.TagPartSuffix | converter.js:180 | What follows the `[!tag]` is a suffix of the quoted text. |
| Blocks.AlertFirstSuffix | converter.js:180 | The first body line is a suffix of what follows the tag, without a line break or a leading blank. |
| Blocks.TagPartFrame | converter.js:180 | `[!` + a keyword in any ASCII case + `]` is read as that alert kind, with the rest after it. |
| Blocks.TableRowFrame | converter.js:225 | Whitespace, `\|`, non-empty text, `\|`, whitespace is a table row. |
| Stacks.Unwind | converter.js:145-148 | The heading pop loop leaves a prefix of the stack. Every popped level is at least the new heading's, and the new top is below it. |
| Stacks.UnwindPrefix | converter.js:145-148 | The unwinding stops at the first entry from the top that is below the level. |
| Stacks.HeadingReplaces | converter.js:145-151 | After a heading, the stack keeps exactly the open levels below it, then the heading's level. It stays strictly increasing, with levels in 1..6. |
| Stacks.UnwindLists | converter.js:164-166 | The list pop loop leaves a prefix. Every popped entry is deeper or of the other kind. The new top is neither. |
| Stacks.UnwindListsKind | converter.js:164-166 | What the pop loop leaves has the item's kind throughout. |
| Stacks.ItemKeepsLists | converter.js:164-171 | After an item the list stack is non-empty, of one kind, with strictly increasing levels of at least 1. Its top is exactly the item's kind and level. |
| Stacks.KindSwitchClosesAll | converter.js:164 | An item of the other kind closes every open list. |
| Render.IndentDedent | converter.js:78 | `push` adds two spaces per open section and nothing else. |
| Render.ParagraphLines | converter.js:89-98 | A non-empty paragraph buffer of `n` lines emits `n + 2` lines; an empty one emits nothing. |
| Render.ParagraphText | converter.js:89-98 | The paragraph is `<p>`, the rendered lines separated by `<br>` and a line break, then `</p>`. |
| Render.BrJoin | converter.js:92-94 | `<br>` on every line but the last is the same as joining by `<br>` and a line break. |
| Render.BlockquoteAsParagraph | converter.js:219 | A blockquote carries its lines as a paragraph does, on one output line. |
| Render.NonEmptyMembers | converter.js:104 | The cell filter keeps exactly the non-empty pieces. |
| Render.CellsMembers | converter.js:104 | The cells of a row are exactly the non-empty trimmed pieces between bars. |
| Render.CleanRowCells | converter.js:110 | A row built from clean cells gives those cells back. |
| Render.EmptyCellDropped | converter.js:110 | An empty cell between two others is dropped, so the later cells shift left. |
| Render.TableLines | converter.js:101-117 | An empty buffer emits nothing. Otherwise the table has 3 lines, or `n + 3` when there are body rows. |
| Render.TableBody | converter.js:107-114 | With body rows, the body part is one line per body row plus `<tbody>` and `</tbody>`, which is as many lines as the buffer. Without them it is empty. |
| Render.SeparatorIgnored | converter.js:103 | The separator line never affects the output. |
| Render.TableBodyPresent | converter.js:107-108 | `<tbody>` is emitted exactly when there are at least three buffered lines. |
| Render.TableRowsInOrder | converter.js:109-111 | Body line `k` of the buffer renders as row `k` of the body, in order. |
| Render.AlertTitles | converter.js:204 | The titles are `Note`, `Tip`, `Important`, `Warning`, `Caution`. |
| Render.NonBlank | converter.js:205 | The alert filter keeps exactly the lines that do not trim to empty. |
| Render.NonBlankDropsBlank | converter.js:205 | Blank (all-whitespace) body lines are dropped. |
| Render.BlankAlertBody | converter.js:205 | An alert whose lines are all blank still has an empty body paragraph. |
| Render.AlertLines | converter.js:203-206 | An alert always emits exactly four lines. |
| Render.DetailsOpen | converter.js:149 | A section's opening line is a tag starting with `<details style="margin-left:`. |
| Render.DetailsClosingsStep | converter.js:145-148 | Each popped section adds one `</details>`, indented by the depth before its pop. |
| Render.ListClosingsStep | converter.js:164-166 | Each popped list adds its own closing tag last. |
| Parser.BalancedClosed | converter.js:243-245 | When no section and no list is open, every tag has as many closing lines as opening lines. |
| Parser.ClassifyTags | converter.js:149-170 | The tag lines the parser writes are classified as what they open or close. |
| Parser.TaggedClasses | converter.js:78 | The recorded marks are exactly the classes of the output lines. |
| Parser.TaggedPush | converter.js:78 | Pushing a line, at any indentation, adds its class to the marks. |
| Parser.ParagraphLinesText | converter.js:89-98 | With a safe transformer, the paragraph's lines open and close nothing. |
| Parser.TableText | converter.js:101-117 | The table's lines open and close nothing. |
| Parser.AlertText | converter.js:203-206 | The alert's four lines open and close nothing. |
| Parser.RuleInFence | converter.js:125-137 | A rule line inside a fenced block is still a rule, so it emits `<hr>` rather than code. |
| Parser.PlainEffectQuote | converter.js:211-216 | A quote line emits the paragraph, and its transformed content joins the blockquote. |
| Parser.PlainEffectNotQuote | converter.js:217-222 | Any other line first emits a pending blockquote, then goes on as a table row, blank or text line. |
| Parser.RowEffectRow | converter.js:225-230 | A table row emits the paragraph and joins the table. |
| Parser.RowEffectNotRow | converter.js:231-239 | Any other line emits a pending table, then the paragraph if the line is blank. Text joins the paragraph. |
| Parser.PlainEffectValid | converter.js:210-239 | Each flag stays set exactly when its buffer holds a line. |
| Parser.TextDefers | converter.js:236-239 | With no blockquote or table pending, a text line emits nothing and joins the paragraph. |
| Parser.QuoteBeforeTable | converter.js:211-233 | After a table row, a quote line and then a text line emit the blockquote before the table. |
| Parser.CollectAlert | converter.js:196-200 | The callout loop consumes the maximal run of following quote lines and never runs past the last line. Its body is the first line followed by each line's content in order. |
| Parser.Converter.constructor | converter.js:74-86 | The parser starts with no output, empty stacks and buffers, and every flag off. |
| Parser.Converter.Push | converter.js:78 | The line is appended, indented by the heading depth, and its label is recorded. |
| Parser.Converter.PushText | converter.js:78 | A line that opens or closes nothing is appended at the heading depth. |
| Parser.Converter.PushTexts | converter.js:78 | Such lines are appended in order at the heading depth. |
| Parser.Converter.FlushParagraph | converter.js:89-98 | The paragraph lines are appended at the current depth and the buffer is emptied. |
| Parser.Converter.FlushTable | converter.js:101-117 | The table lines are appended and the buffer is emptied. `inTable` is reset only when the buffer was non-empty. |
| Parser.Converter.PopList | converter.js:176 | The top list is closed and popped. |
| Parser.Converter.CloseLists | converter.js:243 | Every open list is closed, innermost first, and the list stack is empty. |
| Parser.Converter.PopHeading | converter.js:245 | The top section is closed and popped. |
| Parser.Converter.CloseHeadings | converter.js:245 | Every open section is closed, innermost first, and the heading stack is empty. |
| Parser.Converter.Rule | converter.js:125-129 | The paragraph is flushed, then `<hr>` is appended. |
| Parser.Converter.Fence | converter.js:132-136 | The paragraph is flushed. An open block is closed; otherwise one is opened with the trimmed language. The flag flips. |
| Parser.Converter.CodeLine | converter.js:137 | A line inside a code block is appended escaped once. |
| Parser.Converter.OpenHeading | converter.js:140-153 | The paragraph is flushed, the sections at the level or deeper are closed, then a section is opened. The stack becomes the unwound stack plus the new level. |
| Parser.Converter.EnterSection | converter.js:145-151 | One `</details>` per popped section is appended, then the section's opening lines at the new depth. |
| Parser.Converter.CloseSectionsFrom | converter.js:145-148 | The stack becomes its unwinding, with one `</details>` per popped entry. |
| Parser.Converter.PushSection | converter.js:149-151 | The `<details>` and `<summary>` lines are appended and the level is pushed. |
| Parser.Converter.ListItem | converter.js:156-174 | The paragraph is flushed. Each popped list is closed, and a list is opened when the item is deeper than the top. The `<li>` line follows. The list stack becomes the one after the item. |
| Parser.Converter.PlaceItem | converter.js:164-173 | The pop loop, the optional open and the `<li>` line, with the list stack after the item. |
| Parser.Converter.CloseListsFor | converter.js:164-166 | The list stack becomes its unwinding for the item, with one closing tag per popped list. |
| Parser.Converter.OpenListFor | converter.js:168-171 | A list is opened and pushed exactly when the stack is empty or its top is shallower. |
| Parser.Converter.PushList | converter.js:169-170 | The list's opening tag is appended and its entry is pushed. |
| Parser.Converter.Alert | converter.js:180-208 | The paragraph is flushed and the maximal run of quote lines is consumed. The four alert lines are appended, and the cursor never passes the end. |
| Parser.Converter.Quote | converter.js:211-216 | The paragraph is flushed and the transformed content is buffered. |
| Parser.Converter.FlushBlockquote | converter.js:217-221 | The blockquote line is appended and the buffer is emptied. |
| Parser.Converter.TableRow | converter.js:225-230 | The paragraph is flushed and the raw line is buffered. |
| Parser.Converter.PlainLine | converter.js:210-239 | `out` gains exactly what `PlainEffect` emits, and the buffers become the ones it gives: a quote line is buffered, any other line ends the blockquote, then a table row is buffered or the table is flushed, and a blank line flushes the paragraph while text joins it. |
| Parser.Converter.NotQuote | converter.js:217-239 | A line that is no quote emits the pending blockquote and then what `RowEffect` emits. |
| Parser.Converter.EndQuote | converter.js:217-222 | A pending blockquote is emitted and emptied; otherwise nothing changes. |
| Parser.Converter.RowOrText | converter.js:224-239 | `out` and the buffers change as `RowEffect` says. |
| Parser.Converter.NotRow | converter.js:231-239 | A line that is no row emits the pending table and, for a blank line, the paragraph. |
| Parser.Converter.BlankOrText | converter.js:236-239 | A blank line flushes the paragraph; text joins it. |
| Parser.Converter.EndTable | converter.js:231-233 | A pending table is emitted and emptied. |
| Parser.Converter.Step | converter.js:121-240 | One pass changes the state as its kind of line says. A rule (even inside a fence) flushes the paragraph and emits `<hr>`. A fence flips the code state. A code line is emitted escaped. A heading unwinds and opens a section. An item places itself in the lists. Every other line closes the lists and goes on as `OtherEffect`. Only that last kind changes the list stack or the blockquote and table buffers, and only a callout moves the cursor. |
| Parser.Converter.RuleStep | converter.js:125-129 | A rule line: the paragraph, then `<hr>`; the stacks and the code state stay. |
| Parser.Converter.FenceStep | converter.js:132-136 | A fence line: the paragraph, then the opening or closing line; the flag flips. |
| Parser.Converter.CodeStep | converter.js:137 | A code line: the line escaped once; nothing else changes. |
| Parser.Converter.HeadingStep | converter.js:140-153 | A heading: the paragraph, the closed sections, the new section; the list stack and the other buffers stay. |
| Parser.Converter.ItemStep | converter.js:156-174 | An item: the paragraph, the closed lists, an optional opened list and the `<li>` line; the heading stack stays. |
| Parser.Converter.OtherStep | converter.js:175-240 | Any other line: the lists closed, then an alert or the plain-line effect; the heading stack and code state stay. |
| Parser.Converter.OtherLine | converter.js:175-240 | The open lists are closed and the list stack ends empty. A callout then emits the paragraph and its four alert lines, consuming the maximal run of quote lines. Any other line emits and buffers what `PlainEffect` says. |
| Parser.Converter.Finish | converter.js:243-245 | Lists are closed, the paragraph is flushed and the sections are closed, in that order. Both stacks end empty and every tag is balanced. |
| Parser.Converter.Run | converter.js:121-245 | After the whole document both stacks and the paragraph buffer are empty, and every tag is balanced. |
| Parser.MarkdownToPrettyHtml | converter.js:74-248 | For any transformer meeting `SafeInline`, the result is the output lines joined by line breaks. Counted from the output lines themselves, every `<details>`, `<ul>` and `<ol>` opened is closed as often. |
| Pipeline.InlineUntagged | converter.js:13-71 | No result of `inlineMarkdown`, once dedented, starts like a line that opens or closes a section or a list. |
| Pipeline.InlineLineSafe | converter.js:13-71 | The transformer as the parser calls it meets `SafeInline`. |
| Pipeline.Convert | converter.js:74-248 | With `inlineMarkdown` plugged in, counted from the output lines, every section and list opened is closed as often. |

## Left out

- `buildDownloadHtml`, the placeholder script, `downloadFile`, the click
  handler and `html_beautify`: document wrapping, browser I/O and an
  external formatter, outside the conversion engine.
- The SVG path data of the five octicons: `AlertIcon` keeps each icon's
  class name and attributes with an empty path, because the path data is an
  opaque constant.
- Pipeline.InlineLine: a `TypeError` thrown by `inlineMarkdown` in the middle
  of a document aborts the whole conversion. Here that line's text is empty
  instead. It happens only for input holding NUL characters
  (`CodeTokens.InlineTotal`).
- Parser.Converter.Run: the output is given pass by pass, through each
  call of `Step` and through `Finish`. No single function of the whole
  document states it.
- InlineFacts.CodeSpansProtected: the exact output is stated only for lines
  whose plain pieces trigger no other rule. For any NUL-free text,
  `CodeTokens.CodeSpansSurvive` and `InlineFacts.RestoreCodeToken` prove
  that each code span is restored exactly once as `<code>` + its content
  escaped twice + `</code>`.
- MatchRule: its own contract gives only the span and the trigger. The
  replacement each rule writes is stated per matcher (`MatchWrappedAt`,
  `MatchItalicSound`, `CodeTokens.MatchImageAt`, `CodeTokens.MatchLinkAt`,
  `StyledSpanColour`, `StyledSpanDefault`).
- Parser.Converter.Valid: the agreement between the flags and their buffers
  (`inBlockquote` exactly when `blockquoteBuf` is non-empty) is not part of
  the invariant. The methods state each flag and buffer outright instead.
- Parser.MarkdownToPrettyHtml: open and close counts are proved to balance,
  but tags of different kinds may still be misnested. The source can print
  `</details>` while a list is open inside the section, because lists are
  closed only by a line that reaches converter.js:176, or at the end.
- ECMAScript regular-expression details: `\s` is ECMAScript white space and
  line terminators. The `i` flag is ASCII case folding only (no `u` flag).
  Backtracking is modelled only as far as each pattern's shape needs.
