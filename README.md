# vmd markdown renderer, modelled in Dafny

This project models `renderer/render-markdown.js` of vmd, a markdown viewer.
That file turns a note written in markdown into HTML in two stages:

- `preprocess` rewrites the raw text with three global regular-expression
  substitutions:
  - it removes empty headers;
  - it widens a single blank line between bullets;
  - it turns `*item[YYYY-MM-DD HH:MM]` into a checked task item with a
    timestamp span.
- Four hooks on the markdown parser then adjust its output:
  - `text` turns `:name:` emoji shortcodes into images and marks a `Done`
    heading;
  - `listitem` turns `[x]` / `[ ]` items into disabled checkboxes;
  - a wrapper around the inline lexer's `output` hides the underscores of
    emoji names from the parser behind the sentinel `\xff`;
  - `code` adds the `hljs` class to the first `<pre>`.

The file is pure string processing, so the model is functions and lemmas.

- **Global `replace`.** Each `String.prototype.replace` with a `/g` pattern is
  a recursive scan. If the pattern matches at the current position, the scan
  emits the replacement and resumes after the match. Otherwise it copies one
  character and moves on. None of the patterns looks behind, and `^` appears
  only in patterns used without the `m` flag. So a match at a position
  depends only on the suffix from that position, and the scan recurses on
  suffixes.
- **Matchers.** Each pattern has a matcher that follows JavaScript's
  backtracking order:
  - greedy quantifiers take the longest choice first;
  - lazy ones take the shortest first;
  - the classes are ECMAScript's:
    - `\s` is the full WhiteSpace and LineTerminator set;
    - `.` matches anything but a line terminator;
    - `\d` is the ASCII digits.
- **`emptyHeaderRegex`.** `EmptyHeaderAt` searches the splittings of
  `#+\s*[^/\n]*\s+(#+|Tomorrow)`. `EmptyHeaderAtIsFirstMatch` proves that it
  returns exactly the splitting the backtracking engine reports first, and
  none when no splitting exists.
- **The parser.** The markdown parser is not modelled. Its list item renderer,
  code renderer and inline `output` enter as function parameters.

Modules:

| module | file | covers |
|---|---|---|
| `Wrappers` and `JsRegex` | `strings.dfy` | `Option`, the character classes, greedy runs, the backtracking search and a few sequence facts |
| `Emoji` | `emoji.dfy` | `emojiRegex` scanning, `escapeUnderscore`, `unescapeUnderscore`, `escapeEmoji` and `unescapeEmoji` |
| `Preprocessor` | `preprocess.dfy` | the three substitutions of `preprocess` |
| `Renderer` | `renderer.dfy` | the `text`, `listitem`, `code` and inline output hooks |

### Behaviour as written

Two rewrites of `preprocess` consume the start of the next construct. A
substitution does not look at text it has already matched, so:

- **Empty headers.** A match of `emptyHeaderRegex` ends with the '#'
  characters of the next header. That header therefore cannot start a match
  of its own. Of the lines `# A`, `# B`, `# C`, only `# A` is removed, even
  though `# B` has no body either (`Preprocessor.EmptyHeaderAtLine`,
  `Preprocessor.HeadersInARow`).
- **List gaps.** A match of `singleListSpaceRegex` ends with the next
  bullet's `*`. Of two single blank lines in a row between bullets, only the
  first is widened, provided the middle bullet's line holds no other `*`
  (`Preprocessor.BulletsInARow`). A further `*` on that line, as in
  `**bold**`, starts a match of its own, and then the second gap is widened
  too.

The model states both behaviours as the code produces them.

Neither the `Done` rule nor the task item rule trims its text:

- `^Done$` (line 7) has no `m` flag, so it matches only the whole text
  `Done`. ` Done` and `Done\n` stay as they are (`Renderer.TextDoneRule`).
- `listItemRegex` (line 5) needs the `[` at position 0
  (`Renderer.ListItemNoBox`).
- A done item's text keeps the space after its `*`, because line 50 copies
  group 1 verbatim. The `\s*` of `listItemRegex` absorbs that space later
  (`Renderer.DoneItemIsTicked`).

## Model

| member | source | states |
|---|---|---|
| Emoji.ReplaceEmoji | renderer/render-markdown.js:4 | `s.replace(emojiRegex, f)` as a left-to-right scan; it has no contract of its own and is specified by Emoji.TokenLen, Emoji.ReplaceEmojiToken, Emoji.ReplaceEmojiTokenFree and Emoji.ReplaceEmojiColonFree |
| Emoji.EscapeUnderscore | renderer/render-markdown.js:16-18 | escapeUnderscore; it has no contract of its own and is specified by Emoji.EscapeUnderscoreSpec and undone by Emoji.UnderscoreRoundTrip |
| Emoji.UnescapeUnderscore | renderer/render-markdown.js:20-22 | unescapeUnderscore; it has no contract of its own: Emoji.Translate gives it pointwise and Emoji.UnderscoreRoundTrip makes it the inverse of escapeUnderscore |
| Emoji.EscapeEmoji | renderer/render-markdown.js:24-28 | escapeEmoji; it has no contract of its own and is specified by Emoji.TranslateNamesAt, Emoji.EscapeEmojiLocal and Emoji.EscapeEmojiKeepsTokens |
| Emoji.UnescapeEmoji | renderer/render-markdown.js:30-34 | unescapeEmoji; it has no contract of its own: Emoji.TranslateNamesAt gives it pointwise and Emoji.EmojiRoundTrip makes it the inverse of escapeEmoji |
| Emoji.TokenLen | renderer/render-markdown.js:4 | a token starts the text exactly when the length returned is positive; no other name length forms a token there (the lazy `+?` stops at the first ':') |
| Emoji.ReplaceEmojiToken | renderer/render-markdown.js:4 | a token `:name:` at the start is replaced by the callback applied to its name, and the scan resumes after the closing ':' |
| Emoji.ReplaceEmojiTokenFree | renderer/render-markdown.js:4 | text in which no position starts a token passes through the emoji scan unchanged |
| Emoji.ReplaceEmojiColonFree | renderer/render-markdown.js:4 | a stretch without ':' is copied ahead of the scan of what follows it |
| Emoji.Translate | renderer/render-markdown.js:16-22 | `replace(/[c]/g, d)`: same length, each `c` becomes `d`, every other character is kept |
| Emoji.EscapeUnderscoreSpec | renderer/render-markdown.js:16-18 | escapeUnderscore leaves no `_`, puts the sentinel where each `_` was and changes nothing else |
| Emoji.UnderscoreRoundTrip | renderer/render-markdown.js:16-22 | unescapeUnderscore undoes escapeUnderscore on text without the sentinel |
| Emoji.TranslateNamesAt | renderer/render-markdown.js:24-34 | the name translation maps the chosen character only at positions inside the name of a token the scan finds, and copies every other position |
| Emoji.EscapeEmojiLocal | renderer/render-markdown.js:24-28 | escapeEmoji keeps the length, leaves no `_` inside a name, and keeps every character outside names, underscores included |
| Emoji.EscapeEmojiKeepsTokens | renderer/render-markdown.js:24-28 | escaping finds the same tokens in the same places: `_` and the sentinel are both name characters |
| Emoji.EmojiRoundTrip | renderer/render-markdown.js:24-34 | unescapeEmoji(escapeEmoji(s)) is s whenever no name in s already holds the sentinel |
| Preprocessor.MarkLen | renderer/render-markdown.js:14 | the length of group 2, `#+` or `Tomorrow`, at a position: when positive, a full run of '#' (the next character is not '#') or exactly `Tomorrow` |
| Preprocessor.MarkLenMatches | renderer/render-markdown.js:14 | group 2 matches (MarkLen positive) iff the text opens with '#' or with `Tomorrow` |
| Preprocessor.LastGapEndIsLast | renderer/render-markdown.js:14 | backtracking over `[^/\n]*` finds the longest end that group 2 can follow, and finds none only when no end works |
| Preprocessor.LastBodyIsLast | renderer/render-markdown.js:14 | backtracking over `\s*` and then `[^/\n]*` returns the first pair in the engine's order, and none only when no pair exists |
| Preprocessor.EmptyHeaderAt | renderer/render-markdown.js:14 | a match returned is a valid splitting of the pattern, with group 2 running to its end; none is returned only when the search finds no splitting |
| Preprocessor.GapIsGreedy | renderer/render-markdown.js:14 | the only `\s+` that group 2 can follow is the greedy one |
| Preprocessor.HeaderSplitAllHashes | renderer/render-markdown.js:14 | a match in which `#+` gives back some '#' also exists with all of them taken |
| Preprocessor.EmptyHeaderAtIsFirstMatch | renderer/render-markdown.js:14 | a match exists iff EmptyHeaderAt returns one, and the one returned comes first in the backtracking order |
| Preprocessor.EmptyHeaderAtNeedsMark | renderer/render-markdown.js:14 | no match starts where no later '#' or `T` follows |
| Preprocessor.EmptyHeaderAtLine | renderer/render-markdown.js:12-14 | a one-line header followed by a newline, then any whitespace (blank lines included) and another header, matches with group 1 the line and that whitespace, and group 2 the next header's hashes |
| Preprocessor.RemoveEmptyHeaders | renderer/render-markdown.js:39-41 | removing empty headers never makes the text longer |
| Preprocessor.RemoveEmptyHeadersDeletes | renderer/render-markdown.js:39-41 | removing empty headers only deletes characters: the result is a subsequence of the input |
| Preprocessor.RemoveEmptyHeadersNoHash | renderer/render-markdown.js:39-41 | text without '#' is returned unchanged |
| Preprocessor.RemoveEmptyHeadersCopies | renderer/render-markdown.js:39-41 | a stretch without '#' is copied ahead of the removal applied to what follows it |
| Preprocessor.HeaderLineMatch | renderer/render-markdown.js:14 | a bodiless header line `# x` right before a header opening with one '#' matches with group 1 that line and its newline, and group 2 that '#' |
| Preprocessor.RemoveEmptyHeadersLine | renderer/render-markdown.js:39-41 | such a line is dropped: the following '#' (group 2) is all that is kept of the match, and the scan resumes after it, inside the second header |
| Preprocessor.HeaderBlankLineMatch | renderer/render-markdown.js:14 | a bodiless header line `# x`, a blank line, and a header opening with one '#' match with group 1 that line and both newlines, and group 2 that '#' |
| Preprocessor.RemoveEmptyHeadersBlankLine | renderer/render-markdown.js:39-41 | such a line is dropped together with the blank line: the following '#' is all that is kept, and the scan resumes inside the second header |
| Preprocessor.HeadersBlankLineApart | renderer/render-markdown.js:39-41 | `# A\n\n# B\n` becomes `# B\n` |
| Preprocessor.HeadersInARow | renderer/render-markdown.js:39-41 | `# A\n# B\n# C` becomes `# B\n# C`: only the first of three bodiless headers is removed |
| Preprocessor.WidenListGaps | renderer/render-markdown.js:44-46 | the second substitution; it has no contract of its own and is specified by Preprocessor.WidenListGapsLength, Preprocessor.WidenListGapsInserts, Preprocessor.WidenListGapsOnlyNewlines and the lemmas below |
| Preprocessor.ListGapAt | renderer/render-markdown.js:10 | a match of `(\*.*)\n{2}(\*)` at a position is found exactly when one exists, with the greedy `.*` as its group 1 |
| Preprocessor.WidenListGapsLength | renderer/render-markdown.js:44-46 | the widened text is longer by exactly the number of matches |
| Preprocessor.WidenListGapsInserts | renderer/render-markdown.js:44-46 | widening only inserts characters: the input is a subsequence of the output |
| Preprocessor.WidenListGapsOnlyNewlines | renderer/render-markdown.js:44-46 | what widening inserts is newlines only: with newlines removed, input and output are equal |
| Preprocessor.WidenListGapsNoGap | renderer/render-markdown.js:44-46 | text without `\n\n*` is unchanged |
| Preprocessor.WidenListGapsMatch | renderer/render-markdown.js:9-10 | a bullet line, one blank line and the next bullet gain a second blank line, and the scan goes on after that bullet's '*' |
| Preprocessor.WidenListGapsCopiesLine | renderer/render-markdown.js:10 | a line ended by any line terminator or by the end of the text, and not followed by `\n\n*`, is copied as it is |
| Preprocessor.WidenListGapsKeepsWideGap | renderer/render-markdown.js:44-46 | bullets already two blank lines apart stay as they are |
| Preprocessor.WidenListGapsCopiesStarFree | renderer/render-markdown.js:10 | text without '*' starts no match and is copied |
| Preprocessor.BulletsInARow | renderer/render-markdown.js:44-46 | of two single blank lines in a row between bullets, when the middle bullet's line holds no other '*', only the first is widened |
| Preprocessor.MarkDoneItems | renderer/render-markdown.js:49-51 | the third substitution; it has no contract of its own and is specified by Preprocessor.MarkDoneItemsRewrites and Preprocessor.MarkDoneItemsStampFree |
| Preprocessor.FirstStamp | renderer/render-markdown.js:6 | the lazy `.*?` stops at the first bracketed timestamp on the line; none is found only when no match exists |
| Preprocessor.DoneItemAt | renderer/render-markdown.js:6 | the match of doneItemRegex at a position has the shortest item, and is missing only when no match exists |
| Preprocessor.MarkDoneItemsRewrites | renderer/render-markdown.js:49-51 | `*ITEM[YYYY-MM-DD HH:MM]` becomes `* [x] ITEM<span class="timestamp">YYYY-MM-DD HH:MM<span/>`, and the scan goes on after the `]` |
| Preprocessor.MarkDoneItemsStampFree | renderer/render-markdown.js:49-51 | text without a bracketed timestamp is unchanged |
| Preprocessor.Preprocess | renderer/render-markdown.js:37-54 | the three substitutions in their order; it has no contract of its own and is specified by Preprocessor.PreprocessPlain and the lemmas about each step |
| Preprocessor.PreprocessPlain | renderer/render-markdown.js:37-54 | text without '#', `\n\n*` or a bracketed timestamp passes all three substitutions unchanged |
| Renderer.Text | renderer/render-markdown.js:58-70 | renderer.text; it has no contract of its own and is specified by Renderer.TextDoneRule, Renderer.TextPlain and Renderer.TextEmoji |
| Renderer.NoImageMeansCopy | renderer/render-markdown.js:59-62 | the emoji-to-image scan yields a string without '<' only when it copied the text |
| Renderer.ImagesNotDone | renderer/render-markdown.js:58-67 | the text after the image scan is `Done` iff the original text is `Done` |
| Renderer.TextDoneRule | renderer/render-markdown.js:64-67 | the text hook turns exactly the text `Done` into `<h4 class="done-list">Done</h4>`; any other text gets only the image rewrite |
| Renderer.TextPlain | renderer/render-markdown.js:58-70 | text without emoji tokens, other than `Done`, is returned unchanged |
| Renderer.TextEmoji | renderer/render-markdown.js:59-62 | a token at the start becomes `<img alt=":n:" src="emoji://n" />`, with n the name with its underscores restored |
| Renderer.ListItem | renderer/render-markdown.js:74-86 | renderer.listitem; it has no contract of its own and is specified by Renderer.ListItemChecked, Renderer.ListItemUnchecked, Renderer.ListItemNoBox and Renderer.ListItemMultiline |
| Renderer.ParseTaskItem | renderer/render-markdown.js:5 | `listItemRegex.exec` succeeds iff a splitting exists; the caption returned is the one left by the greedy `\s*`, and the box is checked iff it holds `x` |
| Renderer.TaskSplitAt | renderer/render-markdown.js:5 | `[b]`, whitespace and a one-line caption that does not start with whitespace parse to that caption, checked iff b is `x` |
| Renderer.ListItemChecked | renderer/render-markdown.js:74-83 | `[x]` items render as a `task-list-item` with a disabled, checked checkbox and the caption |
| Renderer.ListItemUnchecked | renderer/render-markdown.js:74-83 | whitespace boxes render the same with `checked` empty, which leaves two spaces before `/>` |
| Renderer.ListItemNoBox | renderer/render-markdown.js:74-86 | an item that does not open with `[x]` or a whitespace box goes to the parser's own list item renderer |
| Renderer.ListItemMultiline | renderer/render-markdown.js:5 | an item whose caption crosses a line terminator goes to the parser's own list item renderer too |
| Renderer.TimestampSpanOneLine | renderer/render-markdown.js:50 | the timestamp span is one line and starts with '<' |
| Renderer.TickedEntry | renderer/render-markdown.js:50 | `* [x] ` + item + span, after its `* `, parses as a checked task item whose caption is the item without its leading whitespace, followed by the span |
| Renderer.DoneItemIsTicked | renderer/render-markdown.js:49-51 | what the done-item rewrite produces starts with `* ` and parses as a checked task item whose caption ends with the timestamp span |
| Renderer.InlineOutput | renderer/render-markdown.js:90-92 | the wrapped inline output; it has no contract of its own and is specified by Renderer.InlineOutputShields, Renderer.InlineOutputTransparent and Renderer.InlineEmojiKeepsUnderscores |
| Renderer.InlineOutputShields | renderer/render-markdown.js:90-92 | the parser inside the wrapper sees the same tokens, no `_` inside any name, and every other character unchanged |
| Renderer.InlineOutputTransparent | renderer/render-markdown.js:90-92 | with a pass-through parser the wrapper returns the source unchanged (when no name holds the sentinel) |
| Renderer.ImageSurvivesUnescape | renderer/render-markdown.js:61 | unescapeEmoji leaves an emoji image intact: the only token in it is the alt text, whose name has no sentinel |
| Renderer.InlineEmojiKeepsUnderscores | renderer/render-markdown.js:88-92 | a shortcode that goes through the wrapped inline output and the text hook keeps the underscores of its name in alt and source |
| Renderer.Code | renderer/render-markdown.js:96-99 | renderer.code; it has no contract of its own and is specified by Renderer.CodeBlockHighlighted and the contract of Renderer.AddHljsClass |
| Renderer.AddHljsClass | renderer/render-markdown.js:98 | without `<pre>` the markup is unchanged; otherwise only the leftmost `<pre>` becomes `<pre class="hljs">` |
| Renderer.AddHljsClassInserts | renderer/render-markdown.js:98 | the change is the insertion of ` class="hljs"` just before the `>` of the first `<pre>` |
| Renderer.AddHljsClassInverse | renderer/render-markdown.js:98 | the result is 13 characters longer, and taking those characters out gives back the original markup |
| Renderer.CodeBlockHighlighted | renderer/render-markdown.js:96-99 | a code block whose markup opens with `<pre>` opens with `<pre class="hljs">` |

## Left out

- The marked parser is not modelled: its lexer, its default renderers and its
  `smartLists` option. `renderer.listitem`, `renderer.code` and the inline
  `output` take the parser's default as a function parameter.
- highlight.js and the `highlight` option (lines 2 and 104-106) depend on that
  external engine and are not modelled.
- `module.exports` (lines 109-113) only chains `preprocess` into the parser,
  so it is not modelled.
- The `this` that the hooks pass to the parser's own methods is not modelled:
  the parameters stand for the bound methods.
- JavaScript strings are sequences of UTF-16 code units, and Dafny strings
  are sequences of Unicode scalar values. A character outside the Basic
  Multilingual Plane is one character here but two code units to the regular
  expressions. This only matters for `.` and the negated class `[^/\n]`, which
  treat such a pair the same way either way.
- Preprocessor.MarkDoneItemsRewrites: states the rewrite only for an item
  without '['. This is a sufficient condition that keeps the lazy `.*?` from
  stopping at an earlier bracket; `DoneItemAt` and `FirstStamp` still model the
  general case.
- Preprocessor.EmptyHeaderAtLine: states the match only for a header line with
  one space after its hashes and a newline at the end of its text, followed
  by whitespace and the next header.
  `EmptyHeaderAtIsFirstMatch` covers every input.
- Renderer.InlineOutputTransparent: states the round trip only for a
  pass-through parser. A real parser may rewrite the sentinel-escaped text in
  ways the model cannot see.
