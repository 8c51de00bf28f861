# no-forum submission filter and in-memory page store, in Dafny

This project models two parts of the no-forum web application.

1. **The submission filter** (`helpers/filterHtml.ts`). Each HTML fragment a
   user submits passes through it before it is stored. The stages run in this order:
   - bare CSS is wrapped in `<style>`;
   - the text goes to the sanitiser behind a `<body>` tag;
   - `filterCss` collects the CSS chunks of the sanitised markup and filters
     each with `filterCssFragment`. It then replaces the first occurrence of
     each chunk's text in the markup by the result. That occurrence may be an
     earlier copy of the text than the chunk itself (see Findings);
   - `isolateCssAndHtml` cuts the `<style>` blocks out of the markup and joins
     their bodies into one style sheet;
   - the markup and the sheet are minified.

   `filterCssFragment` is the CSS policy:
   - it strips `!important` from declarations;
   - it deletes declarations whose value is a `url(...)`;
   - it deletes `z-index` declarations with four or more digits;
   - it maps the empty text to `undefined`.
2. **The in-memory page store** (`services/page-data-service/memory/index.ts`).
   It maps a page id to a page that holds a list of HTML fragments, and offers
   `get`, `put`, `del` and `rep`.

Modules, in dependency order:

| module | file | what it holds |
|---|---|---|
| `Wrappers` | wrappers.dfy | `Option` |
| `JsStrings` | strings.dfy | the JavaScript string operations the code relies on: `indexOf`, `includes`, `replace` with a string pattern (first occurrence only), `trim`, and the `\s`, `\w` and `\d` classes; plus "obtained by deleting characters" (`IsSubsequence`) |
| `Patterns` | patterns.dfy | the six regular expressions as matchers. Each says how long the match starting at the front of a text is. `DeleteAll` is `s.replace(re, '')` and `Matches` is `s.match(re)` under the `g` flag, both leftmost and non-overlapping |
| `CssFragment` | css_fragment.dfy | `filterCssFragment`: its loop as a method, its value as `FragmentFiltered` |
| `FilterCss` | filter_css.dfy | `filterCss`. The parser callbacks are a class `ChunkCollector` whose fields they update. The tokeniser output is an event sequence |
| `Isolate` | isolate.dfy | `isolateCssAndHtml`: the loop as a method, the value as `Isolation` |
| `FilterHtml` | filter_html.dfy | `filterHtml`, with the sanitiser, the tokeniser and the two minifier calls as function parameters |
| `MemoryStore` | memory_store.dfy | the page store as a class with a `map` field |
| `Corrected` | corrected.dfy | the corrected url pattern and a position-based chunk rewrite, for the two findings below |

Each method that carries a loop or changes state is proved against a
function. The main properties proved about those functions are these.

`filterCssFragment`:
- it returns `undefined` exactly for the empty text;
- otherwise it only deletes characters;
- it leaves untouched text without the three keywords;
- it strips `!important` from a declaration and keeps the rest, when the text holds no other `!`. The declaration may follow a prefix with no `:` that does not end in a letter, digit, `_` or `-`, such as `p{` in a `<style>` body or leading whitespace in a style attribute. So `p{color:red!important}` becomes `p{color:red}`. The loop rewrites the first copy of each match's text, and that may be an earlier copy;
- it deletes a `url(...)` declaration together with its tail up to the first `;`, when the uri has no `#` and no `)` follows the url's own `)`. Otherwise the match runs on to the last `)` and deletes the declarations in between (see Findings);
- the `z-index` pass deletes a `z-index` of four or more digits (with an optional `-`) and keeps a shorter one. The url pass runs first and can still delete a short one that follows a `url(`;
- a proof shows why `!important` must be stripped before the `z-index` pass runs.

`filterCss`:
- the chunk keys are exactly the non-empty style attributes and the texts inside `<style>`, each listed once;
- `openCss` is bounded by the numbers of opening and closing `style` tags;
- without chunks the markup comes back unchanged;
- when no `<style>` text is empty it only deletes characters;
- when one is empty, its rewrite step puts the word `undefined` in front of the markup rewritten so far.

`isolateCssAndHtml`:
- every matched block contains `<`, so the `includes('<')` test never skips one;
- the CSS part is empty or a single `<style>` envelope around a closed sheet;
- the markup part only loses characters.

The page store:
- `get` always answers with a page of the asked id;
- `put` then `get` returns the page just stored;
- `del` removes every equal item, keeps the rest in order and keeps their counts;
- `rep` changes exactly the first equal item.

## Model

| member | source | states |
|---|---|---|
| `JsStrings.IndexOfSpec` | helpers/filterHtml.ts:18 | the position `replace(badImportant, …)` rewrites is an occurrence of the pattern, and none lies before it; -1 means there is none |
| `JsStrings.IndexOfIs` | helpers/filterHtml.ts:63 | an occurrence with no occurrence before it is the one `indexOf` (and so `replace(chunk, …)`) finds |
| `JsStrings.ReplaceFirstAfter` | helpers/filterHtml.ts:16 | when the first character of the pattern does not occur before it, `replace` rewrites exactly that occurrence |
| `JsStrings.ReplaceFirstSubsequence` | helpers/filterHtml.ts:84 | replacing the first occurrence of a text by a text obtained from it by deletion only deletes characters (`replace(match, '')` included) |
| `JsStrings.RunEndSpec` | helpers/filterHtml.ts:9 | the greedy runs `\s*` and `\d+` consist of characters of their class |
| `JsStrings.RunEndAt` | helpers/filterHtml.ts:9 | a run of the class that is followed by a character outside it is where the greedy run ends |
| `JsStrings.TrimStart` | helpers/filterHtml.ts:63 | `trimStart` drops a leading run of whitespace and leaves a result that does not start with whitespace |
| `JsStrings.TrimEnd` | helpers/filterHtml.ts:63 | `trimEnd` drops a trailing run of whitespace and leaves a result that does not end with whitespace |
| `JsStrings.Trim` | helpers/filterHtml.ts:95 | `trim()` is never longer than its input and neither starts nor ends with whitespace |
| `JsStrings.TrimIdempotent` | helpers/filterHtml.ts:95 | trimming twice is trimming once |
| `JsStrings.TrimOfTrimmed` | helpers/filterHtml.ts:63 | a text without whitespace at either end is its own trim |
| `JsStrings.TrimAppendNonSpace` | helpers/filterHtml.ts:95-97 | after `+= '}'` the trimmed CSS is non-blank and ends with `}` |
| `JsStrings.TrimSubsequence` | helpers/filterHtml.ts:63 | `trim()` only deletes characters |
| `JsStrings.SubsequenceTrans` | helpers/filterHtml.ts:22 | deleting characters twice is deleting characters |
| `Patterns.CharFromSpec` | helpers/filterHtml.ts:8 | the lazy run up to `;` after a `url(...)` stops at the first `;`: none lies before it |
| `Patterns.LastCloseParenIsLast` | helpers/filterHtml.ts:8 | the greedy uri part makes the `url(` match end at the last `)` it can reach, which is found, with none after it |
| `Patterns.CloseTagSearch` | helpers/filterHtml.ts:71 | the lazy `.*?` in a style block stops at the first closing `style` tag, with none before it |
| `Patterns.MatchLen` | helpers/filterHtml.ts:7-9 | a match of every pattern is non-empty and never runs past the text |
| `Patterns.ZIndexLen` | helpers/filterHtml.ts:9 | a `z-index` match can only start at a `z` |
| `Patterns.StyleBlockLen` | helpers/filterHtml.ts:71 | a `<style>` block match starts with `<style` |
| `Patterns.RemoveMatchesLength` | helpers/filterHtml.ts:22 | `replace(re, '')` with the `g` flag shortens the text by exactly the total length of the matches that `match(re)` reports |
| `Patterns.FindMatchesNonEmpty` | helpers/filterHtml.ts:12 | every element of `match(re)` is a non-empty text |
| `Patterns.NoMatchesDeleteAll` | helpers/filterHtml.ts:22 | `replace(re, '')` leaves the text unchanged exactly when `match(re)` finds nothing |
| `Patterns.RemoveNoMatches` | helpers/filterHtml.ts:22 | where `match` finds nothing, `replace(re, '')` leaves the text as it is |
| `Patterns.MatchesHaveKeyword` | helpers/filterHtml.ts:12 | each `!important` match contains `!important`, each url match contains `url(`, each z-index match contains `z-index`, and each style-block match contains `<style` |
| `Patterns.NoKeywordNoMatches` | helpers/filterHtml.ts:22 | a text without a pattern's keyword has no match of it, and `replace(re, '')` leaves it as it is |
| `Patterns.RemoveMatchesSubsequence` | helpers/filterHtml.ts:22 | `replace(re, '')` only deletes characters |
| `Patterns.RemoveMatchesSkip` | helpers/filterHtml.ts:22 | a prefix at none of whose positions a match starts is kept as it is |
| `Patterns.DeleteAllAfterMatch` | helpers/filterHtml.ts:22 | a match at the front is cut out whole and the scan resumes right after it, and `match` reports it first |
| `Patterns.ImportantLenAt` | helpers/filterHtml.ts:7 | the `!important` match of a declaration runs through the first `!important` after the colon, whatever other `!` lie before it, and takes a `;` right after it |
| `Patterns.ZIndexLenAt` | helpers/filterHtml.ts:9 | `z-index : (-)digits` matches exactly when there are four or more digits, and then runs through the trailing `\s*;?` |
| `Patterns.UrlLenAt` | helpers/filterHtml.ts:8 | a `url(...)` declaration with no `#` in its uri and no `)` after its closing `)` matches up to that `)` and then through the first `;` after it |
| `CssFragment.FilterCssFragment` | helpers/filterHtml.ts:6-24 | the method computes `FragmentFiltered`, with each loop step rewriting the first occurrence of the next `!important` match |
| `CssFragment.ImportantFoldSubsequence` | helpers/filterHtml.ts:12-20 | the `!important` loop only deletes characters |
| `CssFragment.FragmentDeletesOnly` | helpers/filterHtml.ts:11-23 | the result is `undefined` exactly for the empty text; otherwise it is the input with characters deleted, so it is never longer |
| `CssFragment.FragmentUnchanged` | helpers/filterHtml.ts:11-23 | a non-empty text without `!important`, `url(` and `z-index` is returned unchanged |
| `CssFragment.ImportantDeclaration` | helpers/filterHtml.ts:12-20 | for `name w: v!important t`, with no other `!`, the `!important` pass removes exactly the `!important` and keeps everything else, a following `;` included |
| `CssFragment.ImportantDeclarationMatches` | helpers/filterHtml.ts:12 | such a declaration has exactly one `!important` match: the declaration through `!important` and a `;` right after it |
| `CssFragment.ImportantDeclarationAfter` | helpers/filterHtml.ts:12-20 | the same holds after a prefix with no `:` that is empty or ends in a character outside `[\w-]` (a selector and `{`, a `;`, whitespace): the pass returns the prefix followed by the declaration without `!important` |
| `CssFragment.ImportantAfterMatches` | helpers/filterHtml.ts:12 | after such a prefix the declaration's single `!important` match is still the text's only match |
| `CssFragment.ImportantAfterIndex` | helpers/filterHtml.ts:18 | the first copy of that match in the whole text starts right after the prefix, so `replace` rewrites the declaration itself |
| `CssFragment.FirstCopyAfter` | helpers/filterHtml.ts:18 | a text whose first `:` comes after a prefix with no `:` first occurs right after that prefix |
| `CssFragment.ImportantPassSingleAfter` | helpers/filterHtml.ts:12-20 | with one match that first occurs after a prefix, the loop's single step rewrites it in place and keeps the prefix and the rest |
| `CssFragment.ImportantAfterSelector` | helpers/filterHtml.ts:12-20 | `p{color:red!important}` becomes `p{color:red}` |
| `Patterns.NoDeclHeadAt` | helpers/filterHtml.ts:7 | no `!important` match starts inside a prefix with no `:` that ends in a character outside `[\w-]` when a name character follows it |
| `Patterns.ImportantSkipPrefix` | helpers/filterHtml.ts:12 | such a prefix adds no `!important` match: the text has the same matches as the part after it |
| `JsStrings.ReplaceFirstAtIndex` | helpers/filterHtml.ts:18 | when the first occurrence of a text is right after `pre`, `replace` keeps `pre`, puts the replacement there and keeps the rest |
| `CssFragment.ZIndexDeclarationAt` | helpers/filterHtml.ts:9 | `z-index w1 : w2 (-)d`, with `d` a digit run, matches exactly when `d` has four or more digits |
| `CssFragment.ZIndexLargeMatched` | helpers/filterHtml.ts:22 | a `z-index` of four or more digits is deleted together with the whitespace after it and one `;` |
| `CssFragment.ZIndexSmallKept` | helpers/filterHtml.ts:22 | a `z-index` of one to three digits is kept as it is |
| `CssFragment.UrlDeclarationLen` | helpers/filterHtml.ts:8 | for `name w1 : w2 url(u) rest`, with no `#` in `u` and no `)` in `rest`, the match runs to the `)` and then through the first `;` of the rest |
| `CssFragment.UrlDeclarationMatched` | helpers/filterHtml.ts:22 | such a declaration is deleted, together with the rest up to and including its first `;` |
| `CssFragment.SemiTail` | helpers/filterHtml.ts:8 | the optional lazy tail after the `)` takes nothing when there is no `;`, and otherwise ends at the first `;` |
| `CssFragment.UrlSwallowsToLastParen` | helpers/filterHtml.ts:8 | for `name w1 : w2 url(u) r1 ) r2`, with no `#` in `u` or `r1` and no `)` in `r2`, the match runs to the last `)` and then through the first `;` of `r2`, and `replace` deletes it, declarations in `r1` included |
| `CssFragment.UrlSwallowExample` | helpers/filterHtml.ts:22 | the url pass turns `background:url(a.png);color:rgb(0,0,0);top:0;` into `top:0;` |
| `CssFragment.UrlSwallowsNextDeclaration` | helpers/filterHtml.ts:6-24 | `filterCssFragment` turns the same text into `top:0;`: the colour declaration is lost |
| `CssFragment.NoBangImportantPass` | helpers/filterHtml.ts:12-20 | a text without `!` passes the `!important` loop unchanged |
| `CssFragment.ImportantBeforeZIndex` | helpers/filterHtml.ts:12-22 | `z-index:d!important;` with four or more digits is removed entirely because the `!important` pass runs first, whereas the `z-index` pattern alone would leave `!important;` behind |
| `FilterCss.Record` | helpers/filterHtml.ts:40 | assigning `cssChunks[k]` makes `k` a key, keeps every existing key and adds no other, and keeps the keys distinct |
| `FilterCss.ScanKeys` | helpers/filterHtml.ts:31-53 | the chunk keys are listed once each and are exactly the non-empty style attributes of opening tags and the texts reported while a `<style>` is open |
| `FilterCss.OpenCssBounds` | helpers/filterHtml.ts:32-52 | `openCss` never exceeds the number of `<style>` opening tags, and it falls short of that number only by closing `style` tags |
| `FilterCss.ChunkCollector.OnOpenTag` | helpers/filterHtml.ts:32-42 | `onopentag` counts a `style` tag and records a non-empty style attribute, keeping every value the filtered text of its key |
| `FilterCss.ChunkCollector.OnText` | helpers/filterHtml.ts:43-47 | `ontext` records the text only while a `<style>` is open |
| `FilterCss.ChunkCollector.OnCloseTag` | helpers/filterHtml.ts:48-52 | `onclosetag` lowers a positive counter on a closing `style` tag only |
| `FilterCss.ChunkCollector.SetChunk` | helpers/filterHtml.ts:40 | `cssChunks[k] = filterCssFragment(k)`: the key order is the first-assignment order and the counter is untouched |
| `FilterCss.ChunkCollector.Write` | helpers/filterHtml.ts:55-56 | feeding the events runs the callbacks in order, and the collector's state is the specification scan of the events |
| `FilterCss.ChunkValues` | helpers/filterHtml.ts:27 | the dictionary's keys are exactly the recorded keys |
| `FilterCss.RewriteChunks` | helpers/filterHtml.ts:58-67 | the loop replaces each key's first occurrence by its filtered value (`undefined` as the word) and trims, in key order |
| `FilterCss.FilterCssMarkup` | helpers/filterHtml.ts:26-68 | `filterCss` computes `FilteredCss` of the markup and the tokeniser's events |
| `FilterCss.FilterCssNoChunks` | helpers/filterHtml.ts:58-67 | without a style attribute or a text inside `<style>`, the markup comes back unchanged, not even trimmed |
| `FilterCss.RewriteDeletesOnly` | helpers/filterHtml.ts:58-67 | when every value is obtained from its key by deletion, the rewrite loop only deletes characters |
| `FilterCss.FilterCssDeletesOnly` | helpers/filterHtml.ts:26-68 | with no empty text inside `<style>`, `filterCss` only deletes characters of the markup and never makes it longer |
| `FilterCss.ReplaceEmpty` | helpers/filterHtml.ts:63 | `replace('', v)` puts `v` in front of the text |
| `FilterCss.EmptyKeyStep` | helpers/filterHtml.ts:60-64 | the loop step for the key `""` puts the word `undefined` in front of the markup rewritten so far, then trims |
| `FilterCss.EmptyStyleText` | helpers/filterHtml.ts:43-64 | any empty text reported inside `<style>`, in any event stream, becomes the key `""`, and its step of the rewrite loop puts `undefined` in front of the markup rewritten so far |
| `FilterCss.LargeZIndexChunk` | helpers/filterHtml.ts:9-22 | a chunk `z-index:d` with four or more digits filters to the empty text |
| `FilterCss.EarlierCopyKeys` | helpers/filterHtml.ts:31-53 | for `<p>z</p><div style="z">x</div>` the paragraph text is no chunk, and the style attribute is the only key |
| `FilterCss.EarlierCopyFiltered` | helpers/filterHtml.ts:58-65 | on `<p>z-index:d</p><div style="z-index:d">x</div>`, with four or more digits, the paragraph loses its text and the style attribute keeps its z-index |
| `Corrected.UrlFirstParenKeyed` | helpers/filterHtml.ts:8 | every corrected url match contains `url(` |
| `Corrected.UrlLenFirstParenAt` | helpers/filterHtml.ts:8 | with the uri ending at its first `)`, a located `url(...)` declaration matches up to that `)` and then through the first `;` after it |
| `Corrected.UrlFirstParenDeclaration` | helpers/filterHtml.ts:8 | for `name w1 : w2 url(u) rest`, with no `)` in `u`, the corrected match ends at the url's own `)` and then takes `rest` through its first `;`, whatever `rest` holds |
| `Corrected.UrlFirstParenDeleted` | helpers/filterHtml.ts:22 | the corrected url pass deletes that declaration and resumes right after it |
| `Corrected.FragmentFirstParenDeletesOnly` | helpers/filterHtml.ts:11-23 | with the corrected url pass the filter still returns `undefined` exactly for the empty text and otherwise only deletes characters |
| `Corrected.UrlFirstParenKeepsNextDeclaration` | helpers/filterHtml.ts:6-24 | `background:url(a.png);` followed by a declaration `d` and `top:0;` keeps `d` |
| `Corrected.JoinedAppend` | helpers/filterHtml.ts:58 | the markup of a concatenation of pieces is the concatenation of their markup |
| `Corrected.RewritePiecesAppend` | helpers/filterHtml.ts:58-65 | the position-based rewrite works piece by piece |
| `Corrected.ChunkFilteredInPlace` | helpers/filterHtml.ts:58-65 | a chunk is replaced by its filtered value exactly where it stands, and the markup before and after it is rewritten on its own |
| `Corrected.MarkupKept` | helpers/filterHtml.ts:58-65 | pieces without a chunk are kept as they are |
| `Corrected.FilteredCssAtNoChunks` | helpers/filterHtml.ts:58-67 | without a chunk the markup comes back unchanged, not even trimmed |
| `Corrected.RewritePiecesDeletesOnly` | helpers/filterHtml.ts:58-65 | with no empty chunk the position-based rewrite only deletes characters |
| `Corrected.FilteredCssAtDeletesOnly` | helpers/filterHtml.ts:58-67 | the same after the trim |
| `Corrected.SingleChunkAt` | helpers/filterHtml.ts:58-65 | one chunk between two pieces of markup is filtered in place, and the result trimmed |
| `Corrected.StyleAttributeFilteredAt` | helpers/filterHtml.ts:58-65 | on the markup of `FilterCss.EarlierCopyFiltered` the style attribute loses its z-index and the paragraph keeps its text |
| `Isolate.AppendBody` | helpers/filterHtml.ts:85-97 | after a block body is appended (and `}` when needed) the sheet is closed: blank, or its trim ends with `}` |
| `Isolate.TakeBlock` | helpers/filterHtml.ts:83-98 | the loop body cuts a block containing `<` out of the markup, appends its body to the sheet, and skips other blocks |
| `Isolate.IsolateCssAndHtml` | helpers/filterHtml.ts:70-108 | the method computes `Isolation`, keeping the sheet closed after every block |
| `Isolate.TakeAllClosed` | helpers/filterHtml.ts:95-97 | after any number of blocks, the sheet is closed |
| `Isolate.IsolationCss` | helpers/filterHtml.ts:103-105 | the CSS part is empty or exactly one `<style>` envelope around a closed, non-empty sheet |
| `Isolate.BlocksContainTagStart` | helpers/filterHtml.ts:79-83 | every block `match(htmlStyleTag)` reports contains `<` |
| `Isolate.IsolationNoBlocks` | helpers/filterHtml.ts:78-107 | without a matched block the markup is returned unchanged and the CSS part is empty |
| `Isolate.IsolationNoStyleTag` | helpers/filterHtml.ts:71 | markup without `<style` has no block |
| `Isolate.TakeAllDeletesOnly` | helpers/filterHtml.ts:84 | cutting blocks out only deletes characters of the markup |
| `Isolate.IsolationHtmlDeletesOnly` | helpers/filterHtml.ts:70-108 | the markup part is the input with characters deleted |
| `FilterHtml.FilterSubmission` | helpers/filterHtml.ts:110-163 | `filterHtml` computes `Filter`: bare CSS is prefixed, the sanitiser gets `<body>` + text, then `filterCss`, `isolateCssAndHtml` and the minifiers run in that order |
| `FilterHtml.PreNormalization` | helpers/filterHtml.ts:114-121 | `<style>` is prepended exactly when the text has a `{` and no `<`, and the sanitiser always receives `<body>` before the text |
| `FilterHtml.CssMinifierInput` | helpers/filterHtml.ts:131-151 | the CSS minifier is given the empty text or one `<style>` envelope around a closed sheet |
| `FilterHtml.MarkupDeletesOnly` | helpers/filterHtml.ts:119-139 | between the sanitiser and the markup minifier characters are only deleted, when no text inside `<style>` is empty |
| `MemoryStore.DefaultPage` | services/page-data-service/memory/index.ts:8-18 | the fallback page carries the asked id and one HTML item |
| `MemoryStore.IndexOfItem` | services/page-data-service/memory/index.ts:35 | `indexOf` is -1 or an index of the list |
| `MemoryStore.MemoryPageDataService.constructor` | services/page-data-service/memory/index.ts:4 | the store starts empty, with every page stored under its own id |
| `MemoryStore.MemoryPageDataService.Get` | services/page-data-service/memory/index.ts:6-20 | `get` returns the stored page or else the fallback page; either way the page has the asked id |
| `MemoryStore.MemoryPageDataService.Put` | services/page-data-service/memory/index.ts:22-24 | `put` replaces the page by a one-item page and touches no other id |
| `MemoryStore.MemoryPageDataService.Del` | services/page-data-service/memory/index.ts:26-31 | `del` filters the equal items out of the stored page; for an id that is not stored it fails and changes nothing |
| `MemoryStore.MemoryPageDataService.Rep` | services/page-data-service/memory/index.ts:33-42 | `rep` writes the new item over the first equal item; for an id that is not stored it fails and changes nothing |
| `MemoryStore.IndexOfItemSpec` | services/page-data-service/memory/index.ts:35 | `indexOf` finds an equal item with none before it, or reports -1 when there is none |
| `MemoryStore.WithoutSpec` | services/page-data-service/memory/index.ts:29 | `filter` keeps no equal item, keeps every other item with its number of occurrences, and shortens the list by the number of equal items |
| `MemoryStore.WithoutKeepsOrder` | services/page-data-service/memory/index.ts:29 | the kept items stay in their order |
| `MemoryStore.ReplacedSpec` | services/page-data-service/memory/index.ts:34-36 | `rep` keeps the length, writes at the first equal item and nowhere else, and changes nothing when there is none |
| `MemoryStore.PutThenGet` | services/page-data-service/memory/index.ts:6-24 | `get` after `put` returns the page just stored, and other ids read as before |

## Left out

- DOMPurify, htmlparser2 and html-minifier are foreign libraries. They are function parameters of `FilterHtml.Filter`, and the configuration passed to each (`ALLOWED_URI_REGEXP`, the minifier options) is not modelled. The tokeniser is the sequence of callbacks it makes.
- The `console.log` calls of `filterHtml` write to the console and change no state, so they are left out.
- `for (const chunk in cssChunks)` runs over the keys in their insertion order in the model. JavaScript puts keys that look like array indices (such as `"1"`) first, in numeric order. A key `__proto__` does not become an own property. Neither special case is modelled.
- `replace(text, replacement)` with a string replacement gives `$&`, `$1` and `$$` special meanings. The model inserts the replacement literally, so CSS values that contain `$` are not modelled faithfully.
- Strings are sequences of Unicode code points. JavaScript works on UTF-16 code units, so `\s`, `.` and lengths differ for characters outside the Basic Multilingual Plane.
- Patterns.OpenTagEnd: an attribute value `name="..."` in a `<style>` opening tag ends at its first closing quote. The regular expression could also backtrack to a later quote when the first choice does not lead to a `>`.
- Patterns.UrlLenAt: proved only for uris without `#` and for a text with no `)` after the closing `)`. `Patterns.UrlLimit` models the `#` case (after a `#` the uri part stops at a line terminator), but no lemma is stated for it. With a later `)` the match runs on to it, which `CssFragment.UrlSwallowsToLastParen` states.
- CssFragment.UrlDeclarationMatched: proved only for uris without `#` and for a rest without `)`. With a `)` in the rest, the uri part runs on to the last `)` and the deletion takes every declaration in between. `CssFragment.UrlSwallowsToLastParen` states that case (see Findings).
- CssFragment.ImportantDeclaration: proved only for a text with no `!` besides its one `!important`, at the front of the text or after a prefix with no `:` that does not end in a letter, digit, `_` or `-` (`CssFragment.ImportantDeclarationAfter`). A declaration that follows another declaration (a prefix with a `:`) is not covered by a lemma. The loop replaces the first copy of each match's text, so an identical earlier copy is rewritten instead: in `a:!importantx!important a:x!important` the first step makes the two declarations equal, and the second step strips the first of them again, giving `a:x a:x!important`. `CssFragment.FilterCssFragment` computes this, but no lemma states it.
- The pipeline (`FilterCss`, `FilterHtml`) follows the code as written. The corrected definitions under "Findings" stand beside it in module `Corrected` and are not wired into the pipeline.
- `get`, `put`, `del` and `rep` are `async`. The model runs them synchronously. A rejected promise, which `del` and `rep` produce for an id that is not stored, is the result `false`.
- `rep` with an item that is not in the list writes a property named `-1` on a copied array. The model keeps the list's elements, which is what callers see, and does not keep the extra property.
- The lowdb page store, the API routes and the React pages are not part of this model.

## Findings

| source | as written | input that shows it | evidently intended | confidence | as-written member | corrected member |
|---|---|---|---|---|---|---|
| helpers/filterHtml.ts:8 | the uri part `([^?#]*)` may contain `)`, so the url match runs on to the last `)` it can reach and then to the next `;` | `background:url(a.png);color:rgb(0,0,0);top:0;` is filtered to `top:0;` | the match ends at the url's own `)`, giving `color:rgb(0,0,0);top:0;` | not executed | `CssFragment.UrlSwallowsNextDeclaration` | `Corrected.UrlFirstParenKeepsNextDeclaration` |
| helpers/filterHtml.ts:58-65 | `filteredHtml.replace(chunk, cssChunk)` rewrites the first occurrence of the chunk's text anywhere in the markup | `<p>z-index:99999</p><div style="z-index:99999">x</div>` becomes `<p></p><div style="z-index:99999">x</div>` | the style attribute the chunk came from is rewritten, giving `<p>z-index:99999</p><div style="">x</div>` | not executed | `FilterCss.EarlierCopyFiltered` | `Corrected.ChunkFilteredInPlace` |
