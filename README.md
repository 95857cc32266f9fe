# Syntax highlighting and auto-indent of the VCIDE code editor page

VCIDE's editor tab (`Page` in `VCIDE/IDE/page.py`) colours Python source code
as the user types. On every key release, `Page.syntaxHighlight` does the following:

1. After a Return key, it auto-indents the new line. It inserts spaces: the length
   of the previous line's leading whitespace rounded down to a multiple of four, and
   four more when that line ends in `:`.
2. It removes the four colour tags `kw`, `bi`, `str` and `comment` from the whole
   text.
3. For every keyword and then every builtin of the syntax catalog, it searches the
   text from the end of the previous match. It tags each match whose neighbours on
   its line are line boundaries or characters of `Page.illegals`.
4. For `"` and then `'`, it pairs each opening quote with the next one on the same
   line and tags from the opening quote to the closing quote inclusive. An
   unterminated string is tagged to the end of its line.
5. It tags from every `#` to the end of its line when the `"` and `'` before it on
   its line both come in even numbers. It first takes the string tag off that
   range.

This project models that method and the objects it works on.

Data model:
- The Tk text widget's contents are a `string`.
- A Tk index `line.col` is a flat offset. `linestart`, `lineend` and the widget's
  exact forward `search` become the functions `TextBuffer.LineStart`,
  `TextBuffer.LineEnd` and `TextBuffer.FirstMatch`.
- Each tag is the set of offsets it covers.
- `Highlighter.Page` is a class. Its fields are the text, the insert mark and the four
  tag sets, and each scan loop of the source is a method on it.
- Every method is proved against a specification function:
  - `Tokens.TokenTags` / `Tokens.CatalogTags` for the keyword and builtin loops;
  - `Quotes.QuoteSpans` for the string loops;
  - `Comments.CommentSpans` for the comment loop;
  - `Indent.IndentAfterReturn` for auto-indent.
- The lemmas state what those functions promise: the boundary rule, no skipped
  and no overlapping matches, the shape of string and comment spans, exact
  characterisations of the tagged offsets, and idempotence of a pass.

Modules (one per concern of the method):

| file | module | what it holds |
|---|---|---|
| `text.dfy` | `TextBuffer` | offsets, spans, lines, Tk search |
| `tokens.dfy` | `Tokens` | `Page.illegals`, the boundary test, the keyword/builtin search |
| `quotes.dfy` | `Quotes` | the two string scans |
| `comments.dfy` | `Comments` | the quote-parity test and the comment scan |
| `indent.dfy` | `Indent` | the Return-key auto-indent |
| `page.dfy` | `Highlighter` | the `Page` class and the whole pass |

## Model

| member | source | states |
|---|---|---|
| TextBuffer.Range | VCIDE/IDE/page.py:427-430 | the offsets a `tag_add` or `tag_remove` from a to b covers: those from a up to but not including b (`TextBuffer.RangeMembers`) |
| TextBuffer.LineStart | VCIDE/IDE/page.py:279 | `linestart` of offset i: the result is at or before i, follows a newline or is 0, and no newline lies between it and i |
| TextBuffer.LineEnd | VCIDE/IDE/page.py:279 | `lineend` of offset i: the result is at or after i, is a newline or the buffer end, and no newline lies between i and it |
| TextBuffer.Occurs | VCIDE/IDE/page.py:274 | an exact match of the search: the pattern fits in the text at offset i and equals it character by character, with no regular expression and no case folding |
| TextBuffer.FirstMatch | VCIDE/IDE/page.py:274 | the widget's exact search from `from` to `stop`: a result is an occurrence of the pattern at or after `from`; the model also asks it to end by `stop` (see "Left out") |
| TextBuffer.FirstMatchIsFirst | VCIDE/IDE/page.py:274 | the search finds a match at or before every occurrence inside [from, stop), so it returns the first one |
| Tokens.Illegal | VCIDE/IDE/page.py:41 | the characters of `Page.illegals`; none of them is a newline, a tab, a letter, a digit or `_`, so a match between two of them is a whole token |
| Tokens.Delimited | VCIDE/IDE/page.py:286-298 | the four disjuncts of the boundary test hold exactly when the character before the match is the line start or an illegal, and the character after it is the line end or an illegal |
| Tokens.LineTest | VCIDE/IDE/page.py:279-298 | the test as the loop applies it: the four cases of `Delimited` on the text from `linestart` to `lineend` of the match, at the match's column |
| Tokens.LineTestIsBoundary | VCIDE/IDE/page.py:279-298 | applying the test to the line extracted with `linestart`/`lineend` is the same as testing the match's neighbours in the buffer, where a newline counts as a line boundary |
| Tokens.Visited | VCIDE/IDE/page.py:272-283 | the matches the search loop visits: the first occurrence from the start offset, then those visited when the search resumes at that match plus the token length |
| Tokens.VisitedOccurs | VCIDE/IDE/page.py:272-283 | every match the search loop visits is an occurrence of the token at or after the start offset |
| Tokens.VisitedCovers | VCIDE/IDE/page.py:272-283 | the loop, resuming at match + length, skips no occurrence: each one is a visited match or lies inside one that starts before it |
| Tokens.VisitedDisjoint | VCIDE/IDE/page.py:272-283 | two visited matches never overlap |
| Tokens.TokenTags | VCIDE/IDE/page.py:270-299 | the offsets the search loop for one token tags: the whole of each match it visits that passes the boundary test; `Tokens.TagsFromMembers` states this member by member |
| Tokens.CatalogTags | VCIDE/IDE/page.py:264-341 | the offsets a keyword or builtin list tags: the union over its tokens; `Tokens.CatalogTagsMembers` states this offset by offset |
| Tokens.ScanToken | VCIDE/IDE/page.py:264-299 | the search loop for one token adds exactly `TokenTags(buf, tok)` to the tag and terminates |
| Tokens.TagsFromMembers | VCIDE/IDE/page.py:272-299 | an offset is tagged for a token exactly when a visited match that passes the boundary test covers it |
| Tokens.CatalogTagsMembers | VCIDE/IDE/page.py:264-299 | a catalog list tags an offset exactly when one of its tokens does |
| Tokens.CatalogTagsInLines | VCIDE/IDE/page.py:264-341 | keyword and builtin tags lie inside the buffer and never on a newline |
| Tokens.IdentifierNeighbourBlocks | VCIDE/IDE/page.py:286-298 | a visited match with a non-illegal, non-newline character right before or right after it gets none of its offsets tagged by its token |
| Tokens.DelimitedMatchTagged | VCIDE/IDE/page.py:286-299 | a visited match whose two neighbours are line boundaries or illegals is tagged over its whole length |
| Tokens.ForInsideBefore | VCIDE/IDE/page.py:286-298 | `for` inside `before` is not tagged |
| Tokens.ForBetweenIllegals | VCIDE/IDE/page.py:286-299 | in `x=for;` exactly the offsets 2, 3 and 4 are tagged for `for` |
| Tokens.ForAfterTab | VCIDE/IDE/page.py:41 | a tab is not an illegal, so `for` after a tab is not tagged |
| Quotes.SpanFrom | VCIDE/IDE/page.py:360-373 | the span from an opening quote starts at it, stays on its line, and either closes at the next quote on the line (inclusive) or runs to the line end without the newline, with no quote in between |
| Quotes.QuoteSpans | VCIDE/IDE/page.py:351-406 | the spans the string loop for one quote kind tags: the `SpanFrom` span of the next quote found from where the previous span ended; `Quotes.QuoteSpansShape` and `Quotes.QuoteCharsCovered` pin them down |
| Quotes.NextSpan | VCIDE/IDE/page.py:351-373 | one round of the string loop tags the next span of `QuoteSpans` and resumes at that span's end, strictly after where it started |
| Quotes.QuoteSpansShape | VCIDE/IDE/page.py:351-373 | every span of the scan has that quote-span shape and starts at or after the scan's start, and the spans come in order without overlapping |
| Quotes.QuoteTagsInLines | VCIDE/IDE/page.py:369-372 | string tags lie inside the buffer and never on a newline |
| Quotes.QuoteCharsCovered | VCIDE/IDE/page.py:351-373 | every quote character at or after the scan's start lies in one of the scan's spans |
| Quotes.QuoteSpansIgnoreOtherCharacters | VCIDE/IDE/page.py:353-363 | the scan for one quote kind depends only on where that quote and the newlines are, so the other quote kind and every other character are ignored |
| Quotes.UnterminatedStrings | VCIDE/IDE/page.py:361-369 | in `x='a` newline `b'` each `'` is unterminated, and its span stops before the newline: the spans are [2,4) and [6,7) |
| Comments.CountOnLineBefore | VCIDE/IDE/page.py:426 | the number of a quote character between the start of the `#`'s line and the `#`; `Comments.CountOnLineBeforeIsCount` proves it is the count over that slice of text |
| Comments.EvenQuotesBefore | VCIDE/IDE/page.py:426 | the parity test: both quote counts before the `#` on its line are even |
| Comments.CommentSpans | VCIDE/IDE/page.py:416-432 | the spans the comment loop tags: from each `#` passing the parity test to its line end, resuming there, and resuming just after a `#` that fails it |
| Comments.CountOnLineBeforeIsCount | VCIDE/IDE/page.py:426 | the quote count used by the parity test is the number of that quote in the text from the line start to the `#` |
| Comments.CommentSpansShape | VCIDE/IDE/page.py:416-430 | every comment span starts at a `#` that passes the parity test and runs to the end of its line |
| Comments.CommentSpansOrdered | VCIDE/IDE/page.py:416-432 | comment spans come in order without overlapping |
| Comments.NextComment | VCIDE/IDE/page.py:418-430 | a `#` that passes the test gives the next comment span, and the scan resumes at its line end |
| Comments.NextAfterSkip | VCIDE/IDE/page.py:431-432 | a `#` that fails the test adds nothing, and the scan resumes just after it |
| Comments.CommentTagsExactly | VCIDE/IDE/page.py:416-432 | an offset is tagged as comment exactly when it is not a newline and a `#` passing the parity test stands at or before it on its line |
| Comments.HashInsideString | VCIDE/IDE/page.py:426-432 | in `a="#" #c` the first `#` (after one `"`) is skipped and the second is a comment: the only span is [6,8) |
| Indent.IsSpace | VCIDE/IDE/page.py:249 | the characters Python's `str.isspace` accepts, which `lstrip()` removes: U+0009 to U+000D, U+001C to U+0020, U+0085, U+00A0, U+1680, U+2000 to U+200A, U+2028, U+2029, U+202F, U+205F and U+3000 |
| Indent.LeadingSpace | VCIDE/IDE/page.py:249 | `len(s) - len(s.lstrip())`: a prefix of whitespace characters not followed by another whitespace character |
| Indent.IndentWidth | VCIDE/IDE/page.py:249 | `4 * (n // 4)`: a multiple of four, at most the leading whitespace and less than four below it |
| Indent.PrevLine | VCIDE/IDE/page.py:248 | the text from `insert-1c linestart` to `insert-1c lineend`: the line before the cursor's, which holds no newline |
| Indent.ColonAbove | VCIDE/IDE/page.py:252 | the colon test: the character before `insert-1l lineend` is `:` |
| Indent.IndentAfterReturn | VCIDE/IDE/page.py:249-253 | the number of spaces the Return handler inserts, always a multiple of four; `Indent.IndentAfterNewline` states its value right after a newline |
| Indent.Insert | VCIDE/IDE/page.py:249-253 | Tk's `insert` of a text at offset p: the text before p, then the inserted text, then the text from p on |
| Indent.InsertSpacesTwice | VCIDE/IDE/page.py:249-253 | inserting w spaces and then v more right after them is one insert of w + v spaces |
| Indent.ReturnInserts | VCIDE/IDE/page.py:245-253 | the two inserts together put `IndentAfterReturn` spaces at the cursor and leave the cursor after them |
| Indent.IndentAfterNewline | VCIDE/IDE/page.py:245-253 | right after a Return, the handler inserts the previous line's indentation rounded down to a multiple of four, plus four exactly when that line ends in `:` |
| Highlighter.ValidCatalog | VCIDE/IDE/page.py:264 | `Page.syntax` as a `Catalog` of a keyword list and a builtin list (read at page.py:264 and 304), each token non-empty and free of newlines |
| Highlighter.IsReturn | VCIDE/IDE/page.py:245 | the event is present and its keysym is `Return` |
| Highlighter.Highlight | VCIDE/IDE/page.py:255-432 | the tags a pass leaves: catalog tags for `kw` and `bi`, both quote covers less the comment cover for `str`, the comment cover for `comment` |
| Highlighter.HighlightStringsAndComments | VCIDE/IDE/page.py:343-432 | after a pass no offset is both string and comment, and every offset of a quote span is one of the two |
| Highlighter.HighlightInLines | VCIDE/IDE/page.py:255-432 | every tag of a pass lies inside the buffer and never on a newline |
| Highlighter.QuotesTaggedOutsideComments | VCIDE/IDE/page.py:343-432 | every quote character outside a comment carries the string tag after a pass |
| Highlighter.KeywordInsideString | VCIDE/IDE/page.py:261-406 | tags of different kinds do overlap: in `'if'` offset 1 carries both the keyword tag and the string tag |
| Highlighter.Page.constructor | VCIDE/IDE/page.py:94-112 | a new page holds the initial contents with the cursor after them, highlighted once: its tags are `Highlight(cont, syntax)` |
| Highlighter.Page.ClearTags | VCIDE/IDE/page.py:255-259 | the four tags are empty afterwards |
| Highlighter.Page.AutoIndent | VCIDE/IDE/page.py:245-253 | the text gains `IndentAfterReturn` spaces at the old cursor, and the cursor moves past them |
| Highlighter.Page.ScanTokens | VCIDE/IDE/page.py:261-341 | the keyword (builtin) loop adds `CatalogTags` of the text to `kw` (`bi`) and leaves the other tag alone |
| Highlighter.Page.ScanQuotes | VCIDE/IDE/page.py:343-406 | the string loop for one quote kind adds the cover of `QuoteSpans` to `str` and terminates |
| Highlighter.Page.ScanComments | VCIDE/IDE/page.py:408-432 | the comment loop removes the comment spans from `str`, adds them to `comment`, leaves `kw` and `bi` alone and terminates |
| Highlighter.Page.Rehighlight | VCIDE/IDE/page.py:255-432 | after clearing and the five scans, each tag equals its part of `Highlight(text, syntax)`: catalog tags, quote covers minus comments, comment covers |
| Highlighter.Page.SyntaxHighlight | VCIDE/IDE/page.py:226-432 | auto-indent happens only on a Return event, and otherwise text and cursor are unchanged. The tags become `Highlight(text, syntax)`, a function of the text and the catalog alone, so a pass on an already highlighted, unchanged text changes nothing |

## Left out

- The Tk widget itself is not part of this model: scrollbars, fonts, packing, the
  notebook tab and the tag colours (page.py:67-92, 102-111). Which colour shows when
  tags overlap is Tk's rendering, not modelled.
- Loading `resources/syntax.json` (page.py:43-45) is file I/O. The catalog is a
  constructor parameter, and a catalog is assumed to hold non-empty tokens without
  newlines (`ValidCatalog`).
- The other methods of `Page` (save, close, run, undo/redo; page.py:114-224) are
  outside the highlighting core. So are the constructor's `saved`, `path` and
  `title` attributes.
- Highlighter.Page.constructor: `cont=None` is modelled as the empty string. The
  cursor starts after the inserted contents, because Tk's insert mark has right
  gravity.
- Tk keeps an implicit newline after the last line. The model has no such
  character: the last line ends at the buffer's end.
- Tk moves existing tags when text is inserted. Highlighter.Page.AutoIndent leaves the
  tag sets as they are, because the pass clears them right after.
- Tk marks `a` and `b` are modelled as local offsets. `length` is the token's length,
  since the search is exact.
- `Page.illegals` is modelled as a predicate (`Tokens.Illegal`) rather than a list;
  the characters are the same.
- Keyword and builtin tags also land inside strings and comments, because the token
  scans never look at quotes (`Highlighter.KeywordInsideString`). Which of the
  overlapping colours shows is left to Tk, as said above.
- TextBuffer.FirstMatch: the model asks the whole match to end by the stop index,
  as Tk's `-strictlimits` does, while the searches in page.py use Tk's default,
  which bounds only where a match starts. The results are the same at every search
  of `syntaxHighlight`: the quote and `#` searches look for one character, and the
  token searches stop at the end of the text.
