# copy-as-html: `getHighlightedText` in Dafny

This project models `getHighlightedText` from the copy-as-html Brackets extension (main.js:52-96).
The function turns the syntax tokens of a range of lines into an HTML fragment that keeps
the editor's highlighting when it is pasted elsewhere:

- each token's text is HTML-escaped, and every pair of spaces becomes `&nbsp; `;
- a token with a style type is wrapped in `<span class='cm-TYPE'>…</span>`;
- the tokens are grouped into `<div>` lines, and a new line opens whenever a token's line
  differs from the line tracked before it;
- a line that gets no text is propped open with the zero-width space entity `&#8203;`;
- the whole fragment is wrapped in `<div class='cm-s-default'>…</div>`.

Modules:

- `Tokens` (tokens.dfy) models the token stream. It holds the range cut-off `InRange`, the
  loop's split into lines `Lines`, and a declarative partner for that split (`WellGrouped`
  with `Flatten`). It also counts the line changes.
- `HtmlEscape` (html_escape.dfy) models `StringUtils.htmlEscape` as a per-character escaper of
  `& < > " '`, with its decoder `Unescape`.
- `Spacing` (spacing.dfy) models the line-82 rewrite `replace(/ {2}/g, "&nbsp; ")` as the
  recursive function `ReplaceSpacePairs`, with its inverse `CollapseNbsp`.
- `Rendering` (rendering.dfy) holds `Highlighted`, the specification of the result, stated
  on the split into lines. It also proves the result's properties: the filler, the count of
  line `<div>`s, the range cut-off and the text round trip.
- `CopyAsHtml` (copy_as_html.dfy) holds `GetHighlightedText`, an imperative method with the
  source's loop. It keeps the source's state (`html`, `lineHasText`, `lastLine`) in local
  variables, and the nested `startLine`/`closeLine` are the functions `StartLine` and
  `CloseLine`. The method is proved to return exactly `Highlighted(tokens, start, end)`.
  The proof goes through `Continue`, which states what the rest of the loop and the final
  `closeLine` append from any intermediate state.
- `Strings` and `Wrappers` hold shared helpers: prefix and substring tests, and `Option`.

The split into lines follows the code. The start line's `<div>` is opened before any token
arrives (main.js:72), so `start.line` always gets one, holding the filler if it yields no text
(`Rendering.UntokenizedStartLineKept`). A later line in the range that yields no token gets
no `<div>` of its own (`Rendering.UntokenizedLineMerged`). When every line in the range yields
a token, the result has exactly one `<div>` per line of the range (`Rendering.OneDivPerLine`).
In general it has one for the start line plus one per other distinct line of the tokens in
range (`Rendering.DivsForDistinctLines`).

## Model

| member | source | states |
|---|---|---|
| CopyAsHtml.StartLine | main.js:60-63 | `startLine` appends `<div>` to `html`. It has no `ensures` of its own: `CopyAsHtml.ClosedLine` states that a line it opens holds no token and no text, and `CopyAsHtml.ContinueFromStart` starts the loop from the `<div>` it opens |
| CopyAsHtml.CloseLine | main.js:64-70 | `closeLine` appends the filler when the line has no text, then `</div>`. It has no `ensures` of its own: `CopyAsHtml.ClosedLine` states that it completes the open line's `<div>`, and `CopyAsHtml.NewLineStep` and `CopyAsHtml.ContinueRenders` use that at a new line and at the end of the loop |
| CopyAsHtml.Continue | main.js:74-93 | What the rest of the loop and the final `closeLine` append from a given state. It has no `ensures` of its own: `CopyAsHtml.ContinueStep` unfolds one iteration, and `CopyAsHtml.ContinueRenders` and `CopyAsHtml.ContinueFromStart` state what it produces |
| CopyAsHtml.GetHighlightedText | main.js:52-96 | The loop, with its `startLine`/`closeLine` calls, returns exactly `Highlighted`: the theme container around the `<div>` of every line of the loop's split of the tokens in range |
| CopyAsHtml.ContinueRenders | main.js:72-93 | From any loop state where `html` holds the closed lines' `<div>`s plus the open line's `<div>` and tokens, and `lineHasText` says whether the open line has text, the rest of the loop and the final `closeLine` render the whole split |
| CopyAsHtml.ContinueFromStart | main.js:72-93 | Starting from `startLine()` alone, with `lastLine` at the start line, the loop and final `closeLine` produce the body of the split into lines |
| CopyAsHtml.ContinueStep | main.js:74-91 | One iteration: a token on a new line closes the open line and opens the next before its HTML goes in; a token on the same line only adds its HTML and may set `lineHasText` |
| CopyAsHtml.LoopExit | main.js:74-95 | When the loop stops (end of stream or first token past `end.line`), the final `closeLine` and the wrapper give `Highlighted` |
| CopyAsHtml.ClosedLine | main.js:64-70 | `closeLine` puts the filler in exactly when the open line has no text, which completes that line's `<div>`; a line just opened by `startLine` holds no token and has no text |
| CopyAsHtml.NewLineStep | main.js:75-79 | A token whose line differs from `lastLine` closes the open line into the body and opens a line holding that token |
| CopyAsHtml.SameLineStep | main.js:81-91 | A token on `lastLine` joins the open line |
| CopyAsHtml.AddedToken | main.js:84-91 | A token's HTML lands at the end of the open line, and the line has text afterwards exactly when it had text before or the token sets `lineHasText` |
| Tokens.InRange | main.js:74 | The consumed tokens are a prefix of the stream, all at or before `end.line`, and the token after them (if any) is past `end.line` |
| Tokens.InRangeStopsAtFirstPast | main.js:74 | Nothing after the first token past `end.line` is consumed, whatever line it is on |
| Tokens.InRangeIsPrefix | main.js:74 | The loop, stopping at index `i`, has consumed exactly `ts[..i]` |
| Tokens.InRangeStops | main.js:74 | Where the loop condition fails, the tokens read are exactly the tokens in range |
| Tokens.Lines | main.js:72-79 | The loop's split of the consumed tokens into lines always has at least one line, the start line's. The lemmas state the rest: `Tokens.LinesWellGrouped` and `Tokens.WellGroupedIsLines` give its shape and uniqueness, `Tokens.FlattenLines` says it keeps every token in order, and `Tokens.LinesCount` gives its length |
| Tokens.LinesStep | main.js:75-79 | A token on a line other than `lastLine` opens a new line, otherwise it joins the last one; either way it becomes `lastLine` |
| Tokens.FlattenLines | main.js:74-91 | The split into lines neither drops, duplicates nor reorders a token |
| Tokens.LinesWellGrouped | main.js:74-79 | The split is well grouped: each group's tokens lie on that group's line, every group after the first holds a token, neighbouring groups lie on different lines, and `lastLine` is the last group's line |
| Tokens.WellGroupedIsLines | main.js:74-79 | Every well-grouped split of a token sequence is the loop's split of it, so the split is unique |
| Tokens.ChangesAppend | main.js:75-79 | Appending a token adds a line change exactly when its line differs from `lastLine` |
| Tokens.LinesCount | main.js:72-79 | The split has one line for the initial `startLine()` plus one for every token whose line differs from the line tracked before it |
| Tokens.ChangesAreNewLines | main.js:55-79 | In a stream whose lines never go down and that starts no earlier than the start line, the line changes counted from the start line are the distinct token lines other than the start line |
| Tokens.InRangeLines | main.js:74 | With ordered tokens that cover every line of the range and start no earlier than `start.line`, the consumed tokens lie on exactly the range's lines: the lines other than `start.line` are exactly those after it up to `end.line`, and `start.line` is among them when the range is not empty |
| Tokens.LinesCoverRange | main.js:72-79 | Under the same coverage conditions, the split has exactly `end.line - start.line + 1` lines |
| HtmlEscape.EscapeChar | main.js:81 | Each of `& < > " '` becomes an entity of the form `&…;`, at least four characters long, and any other character is kept as it is. No output contains `<`, `>`, `"` or `'`. `HtmlEscape.UnescapeEscapeChar` proves that each output decodes back to its character |
| HtmlEscape.Escape | main.js:81 | Escaped text holds no `<`, `>`, `"` or `'`, is at least as long as the input, is empty only for empty input, and holds a space exactly when the input does |
| HtmlEscape.UnescapeEscapeChar | main.js:81 | Decoding one escaped character gives that character back without touching what follows |
| HtmlEscape.UnescapeEscape | main.js:81 | Round trip: `Unescape(Escape(s)) == s` |
| HtmlEscape.EscapeHasNoNbsp | main.js:81-82 | Escaped text never contains `&nbsp;`, so the space rewrite's round trip applies to it |
| Spacing.ReplaceSpacePairs | main.js:82 | The rewrite never shortens the text, is empty only for empty text, and adds or removes no `<` or `>` |
| Spacing.ReplaceSpaceRun | main.js:82 | A maximal run of `2 * pairs + odd` spaces becomes `pairs` copies of `&nbsp; ` followed by the odd space, if any; the text after the run is rewritten on its own |
| Spacing.ThreeSpaces | main.js:82 | Three spaces become `&nbsp;` followed by two spaces (the matching does not overlap) |
| Spacing.ReplacedPrefix | main.js:82 | Text with no space or `&` at the start of the rewrite's output was at the start of its input |
| Spacing.CollapseReplace | main.js:82 | Round trip: on text with no `&nbsp;`, turning each `&nbsp;` back into a space undoes the rewrite |
| Rendering.TextHtml | main.js:81-82 | A token's rendered text is empty exactly when its text is, and holds no `<` or `>` |
| Rendering.TextHtmlRoundTrip | main.js:81-82 | Collapsing `&nbsp;` and decoding the entities gives back a token's text exactly |
| Rendering.TokenHtml | main.js:84-91 | What one token adds to its line: its text in a span when it is styled, bare otherwise. It has no `ensures` of its own: `Rendering.TokenHtmlEmpty`, `Rendering.CountDivsToken` and `Rendering.TextHtmlRoundTrip` state when it is empty, that it starts no `<div>`, and that its text can be recovered |
| Rendering.LineHtml | main.js:60-70 | One line's `<div>`: opened, filled with its tokens, given the filler when it has no text, and closed. It has no `ensures` of its own: `Rendering.LineNeverEmpty` and `Rendering.CountDivsLine` state that it is never empty and starts exactly one `<div>` |
| Rendering.Highlighted | main.js:52-96 | The function's result, as the theme container around the `<div>` of every line of the split of the tokens in range. It has no `ensures` of its own: `CopyAsHtml.GetHighlightedText` is proved to return it, and `Rendering.NothingInRange`, `Rendering.LaterTokensIgnored`, `Rendering.ColumnsIgnored` and `Rendering.HighlightedDivCount` state its properties |
| Rendering.TokenHtmlEmpty | main.js:84-91 | A token adds nothing to its line exactly when it has no style type and empty text; a styled token with empty text still adds its span |
| Rendering.TokensHtmlEmpty | main.js:64-91 | A line's tokens add nothing exactly when none sets `lineHasText`, so the filler goes into exactly the lines whose `<div>` would otherwise be empty |
| Rendering.TokensHtmlStep | main.js:84-91 | A token added to a line appends its HTML, and the line has text exactly when it had text before or the token sets `lineHasText` |
| Rendering.LineNeverEmpty | main.js:64-70 | No line is ever rendered as an empty `<div></div>` |
| Rendering.NothingInRange | main.js:72-95 | With no token consumed, the result is exactly `<div class='cm-s-default'><div>&#8203;</div></div>` |
| Rendering.LaterTokensIgnored | main.js:74 | Tokens after the first one past `end.line` do not change the result |
| Rendering.ColumnsIgnored | main.js:53 | The columns of `start` and `end` do not change the result: rendering starts at column 0 of `start.line` |
| Rendering.CountDivsToken | main.js:84-89 | A token's HTML (span or bare text) starts no `<div>` when its style type holds no `<` or `>` |
| Rendering.CountDivsLine | main.js:60-70 | When no style type of the line's tokens contains `<` or `>`, a line's HTML starts exactly one `<div>` |
| Rendering.HighlightedDivCount | main.js:55-95 | The result starts exactly one `<div>` per line of the split, which is 1 plus the number of tokens in range whose line differs from the line tracked before them; the theme container is not counted |
| Rendering.OneDivPerLine | main.js:55-95 | When the tokens are in document order, start no earlier than `start.line`, and every line of the range yields a token, the result has exactly one line `<div>` per line of the range |
| Rendering.UntokenizedLineMerged | main.js:74-79 | Tokens only on lines 0 and 2, rendered from line 0 to line 2, give two line `<div>`s, not three: line 1 gets no `<div>` |
| Rendering.UntokenizedStartLineKept | main.js:72-79 | The start line gets a `<div>` even when it yields no token: plain tokens only on the two lines after it, over a three-line range, give three line `<div>`s |
| Rendering.DivsForDistinctLines | main.js:55-95 | With plain style types and tokens in document order from the start line on, the result has one line `<div>` for the start line plus one per other distinct line of the tokens in range |

## Left out

- `showDialog` (main.js:100-139), `_sprint` (main.js:39-42) and the command and menu registration (main.js:143-147) are editor UI and host glue, with no logic to model.
- The tokenizer (`TokenUtils.getInitialContext`, `TokenUtils.moveNextToken`, main.js:54, 74) is replaced by a given sequence of tokens. It holds the tokens the tokenizer yields from column 0 of `start.line`, and the end of the sequence stands for `moveNextToken` returning false. Properties that need the tokens in document order take that as a precondition (`Sorted`).
- The body of `StringUtils.htmlEscape` is not in the repository's source. The model uses a per-character escaper of `& < > " '` into `&amp; &lt; &gt; &quot; &#039;` in its place.
- Rendering.HighlightedDivCount: counts `<div>`s only when no style type contains `<` or `>` (`PlainStyles`). The source copies a style type into the span's class attribute unescaped, so an arbitrary style string could itself spell `<div>`.
- Rendering.OneDivPerLine: needs the same `PlainStyles` condition, for the same reason. A line after `start.line` that yields no token gives one `<div>` fewer; the start line keeps its `<div>` either way (`Rendering.DivsForDistinctLines` gives the general count).
- Rendering.DivsForDistinctLines: needs the same `PlainStyles` condition, for the same reason.
- Rendering.CountDivsLine: needs the same `PlainStyles` condition on the line's tokens, for the same reason.
- The output string is a sequence of characters. JavaScript's UTF-16 code units and the regex engine are not modelled; `/ {2}/g` is the recursive left-to-right scan `ReplaceSpacePairs`.
- The closure state is held in method locals, not in an object. The source keeps `html` and `lineHasText` as local variables of `getHighlightedText` that its nested functions update, and the method updates them the same way at the same points.
