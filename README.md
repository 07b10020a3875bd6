# Useless Buttons catalog — a Dafny model of `index.js`

`index.js` drives a one-page catalog of "useless buttons". A search box filters
the catalog (`filterButtons`). The catalog is drawn as cards with an Open link
(`renderButtons`). A click on Open looks the item up by the link's `data-index`
and opens a panel chosen from the item's title (`openButtonPanel`). There are three
panels: a click counter with Reset (`openCounterButton`), a random colour
shown as `#RRGGBB` (`randHexColor`, `openColorButton`), and a generic panel
with the item's own text. Every item title and description placed in markup
first goes through `escapeHtml`. The colour (index.js:163, 165) and the card
index (index.js:46) go in unescaped; they hold none of the characters
`escapeHtml` rewrites.

The project has two modules:

- `JsString` (`js_string.dfy`) models the JavaScript built-ins the script
  calls: `toLowerCase`/`toUpperCase` (ASCII letters), `trim` (exactly the
  ECMAScript WhiteSpace and LineTerminator code points), `includes`,
  `padStart`, `Number.prototype.toString(radix)` for radix 10 and 16, and
  `Number(text)` on digit strings. It also holds the facts about digit
  strings that the colour format relies on.
- `Buttons` (`buttons.dfy`) models the script itself:
  - The catalog items, with the sample list.
  - `escapeHtml`, with an entity decoder as its inverse.
  - The search filter.
  - Panel dispatch as `Panel = Counter | ColorSwap | Generic(title, description)`.
  - The counter panel as a class with `count` and the `shown` text of its
    `#count` element.
  - Hexadecimal colour formatting, with a parser as its inverse.
  - The colour panel as a class.
  - Card rendering, and the Open click handler.

## Model

| member | source | states |
|---|---|---|
| `JsString.ToLowerCase` | index.js:55-57 | `toLowerCase` (ASCII letters): the result is as long as the input and holds no A–Z; `ToLowerCaseSpec` gives the rest |
| `JsString.ToUpperCase` | index.js:153 | `toUpperCase` (ASCII letters): the result is as long as the input and holds no a–z; `UpperHex` gives its effect on hexadecimal digits |
| `JsString.ToLowerCaseSpec` | index.js:55-57 | lower-casing keeps the length, leaves no A–Z, changes no other character, maps each upper-case letter to its lower-case partner, and is idempotent |
| `JsString.Trim` | index.js:55 | `trim`: the result is never longer than the input; `TrimSpec` and `TrimEmpty` pin it down |
| `JsString.TrimSpec` | index.js:55 | `trim` cuts its input into a white-space prefix, the result and a white-space suffix, and the result neither starts nor ends with white space |
| `JsString.TrimEmpty` | index.js:55 | `trim` gives the empty string exactly when the input is all white space |
| `JsString.IncludesSpec` | index.js:58 | `includes`, modelled by `Includes`, holds exactly when the needle occurs at some position of the text |
| `JsString.PadStart` | index.js:153 | `padStart(len, fill)`: the result is `len` characters long, or as long as the input if that is longer; `PadStartSpec` gives its contents |
| `JsString.PadStartSpec` | index.js:153 | `padStart` puts copies of `fill` in front of the unchanged input |
| `JsString.ToRadixString` | index.js:153 | `toString(radix)`: at least one digit, and exactly one when the number is below the radix; `ToRadixStringValue` states what the digits denote. `DecimalString` is its radix-10 case: the number-to-text conversion of `${index}` (index.js:46) and of `textContent = count` (index.js:142, 147) |
| `JsString.ToRadixStringValue` | index.js:153 | `toString(radix)` writes a non-empty string of lower-case digits in that base that denotes the number, with no leading zero unless the number is 0 |
| `JsString.ParseDecimal` | index.js:74 | `Number(text)` on a `data-index`: a number only for a non-empty string of decimal digits; `DecimalRoundTrip` shows it reads back what `String(n)` writes |
| `JsString.DecimalRoundTrip` | index.js:74 | `Number` applied to the decimal text a number is written as gives that number back |
| `JsString.DecimalStringInjective` | index.js:46 | distinct indices are written as distinct `data-index` texts |
| `JsString.ToRadixStringLength16` | index.js:153 | `toString(16)` of a number below 16^k has at most k digits, so a colour below 16777215 fits the 6-digit pad |
| `JsString.LeadingZeros` | index.js:153 | the zeros `padStart` adds in front do not change the value of the digits |
| `JsString.SameValueSameDigits16` | index.js:153 | two equally long hexadecimal strings with the same value have the same digit values |
| `JsString.AllFValue` | index.js:153 | k digits F denote 16^k − 1 |
| `Buttons.EscapeHtml` | index.js:15-19 | `escapeHtml`: the result is never shorter than the input; the lemmas below give the full behaviour |
| `Buttons.EscapeHtmlSafe` | index.js:15-19 | the output of `escapeHtml` contains no `<`, `>`, `"` or `'`, and every `&` in it begins one of `&amp;` `&lt;` `&gt;` `&quot;` `&#39;` |
| `Buttons.EscapeHtmlTable` | index.js:16-18 | each of the five special characters becomes exactly its entry of the table, and any other character stays itself |
| `Buttons.EscapeHtmlIdentity` | index.js:16-17 | `escapeHtml` leaves a string unchanged exactly when it contains none of the five special characters (both directions) |
| `Buttons.EscapeHtmlLength` | index.js:16-18 | escaping never shortens a string, and it keeps the length exactly when nothing needs escaping |
| `Buttons.EscapeHtmlPlain` | index.js:16 | a string without special characters comes out unchanged |
| `Buttons.EscapeHtmlConcat` | index.js:16 | escaping distributes over concatenation, because the global replace works character by character |
| `Buttons.EscapeHtmlRoundTrip` | index.js:15-19 | decoding the five entities in the output gives back the original text |
| `Buttons.EscapeHtmlInjective` | index.js:15-19 | distinct texts are escaped to distinct markup |
| `Buttons.FilterButtons` | index.js:54-59 | `filterButtons`: the result is no longer than the catalog, and an item is in it exactly when it is in the catalog and matches `trim(lower(query))`. The helpers are `SearchText` (the lower-cased `title + ' ' + description`, index.js:57), `NormalizeQuery` (index.js:55) and `Matches` (index.js:58) |
| `Buttons.KeepContaining` | index.js:56-59 | the filter keeps an item exactly when the item is in the catalog and its lower-cased `title + ' ' + description` includes the normalised query; the result is no longer than the catalog |
| `Buttons.FilterMembership` | index.js:54-59 | an item is in `filterButtons(query)` exactly when it is in the catalog and its lower-cased text includes `trim(lower(query))` |
| `Buttons.FilterIsSubsequence` | index.js:56-59 | the filtered list is a subsequence of the catalog: it keeps the catalog's order |
| `Buttons.FilterConcat` | index.js:56-59 | filtering a concatenation is the concatenation of the filtered parts |
| `Buttons.FilterSingle` | index.js:56-59 | a single item is kept exactly when it matches |
| `Buttons.FilterStep` | index.js:56-59 | filtering one more catalog item appends it to the result exactly when it matches |
| `Buttons.FilterBlankQuery` | index.js:55-58 | an empty or all-white-space query returns the whole catalog in its original order |
| `Buttons.MissingCharNotIncluded` | index.js:58 | a text that lacks one of the query's characters does not include the query |
| `Buttons.FilterSampleColor` | index.js:54-59 | for the two sample items, the query "color" returns only the Random Color Button |
| `Buttons.OpenButtonPanel` | index.js:82-90 | `openButtonPanel`: a generic panel carries the item's own title and description; `DispatchSpec` states which panel each title gives |
| `Buttons.DispatchSpec` | index.js:82-90 | the panel is Counter exactly when "Endless" occurs in the title. It is ColorSwap exactly when "Color" occurs and "Endless" does not. Otherwise it is Generic, carrying the item's title and description |
| `Buttons.DispatchSampleEndless` | index.js:83-84 | the sample Endless Button opens the counter |
| `Buttons.DispatchSampleColor` | index.js:85-86 | the sample Random Color Button opens the colour panel |
| `Buttons.DispatchEndlessFirst` | index.js:83-86 | a title containing both "Endless" and "Color" opens the counter |
| `Buttons.DispatchCaseSensitive` | index.js:83-89 | matching is case-sensitive: "endless color" opens the generic panel |
| `Buttons.CountAfter` | index.js:140-148 | one run of a counter click handler: from a non-negative count the new count is between 0 and the old count plus one |
| `Buttons.CountAfterIncrements` | index.js:140-143 | N clicks on the counter button add exactly N to the count |
| `Buttons.CountAfterReset` | index.js:145-148 | after a Reset the count depends only on the clicks that follow it |
| `Buttons.CountAfterBounds` | index.js:138-148 | starting from a non-negative count, the count after any clicks is never negative and never exceeds the starting count plus the number of clicks |
| `Buttons.CounterPanel.constructor` | index.js:127-138 | a newly opened counter has count 0 and shows "0" |
| `Buttons.CounterPanel.ClickIncrement` | index.js:140-143 | the count goes up by one, and the new count is shown |
| `Buttons.CounterPanel.ClickReset` | index.js:145-148 | the count becomes 0, and "0" is shown |
| `Buttons.ShownIsCount` | index.js:142-147 | the shown text, read as a number, is always the count |
| `Buttons.CounterScenario` | index.js:138-148 | three increments show "3", and a reset after them shows "0" |
| `Buttons.RandHexColor` | index.js:152-154 | `randHexColor` for the drawn integer n: seven characters starting with `#`; `HexColorWellFormed` and `HexColorOnto` give the rest |
| `Buttons.PaddedHex` | index.js:153 | the zero-padded `toString(16)` of the drawn integer is six hexadecimal digits that denote it |
| `Buttons.UpperHex` | index.js:153 | upper-casing hexadecimal digits keeps their value and leaves only upper-case digits |
| `Buttons.HexColorWellFormed` | index.js:153 | for 0 ≤ n < 16777215 the colour is `#` plus exactly six upper-case hexadecimal digits, zero-padded, and it parses back to n |
| `Buttons.HexColorOnto` | index.js:153 | every `#` plus six upper-case hexadecimal digits whose value is below 16777215 is the colour produced from exactly that value, so (with `HexColorWellFormed`) colours and integers correspond one to one |
| `Buttons.HexColorPlain` | index.js:163-165 | the colour written unescaped into the panel markup contains none of `& < > " '` |
| `Buttons.HexColorNeverWhite` | index.js:153 | `#FFFFFF` is never produced |
| `Buttons.ColorPanel.constructor` | index.js:156-165 | the new colour panel shows a well-formed colour as its text and as its swatch background |
| `Buttons.ColorPanel.NewColor` | index.js:181-185 | New Color shows the newly formatted colour as both text and background |
| `Buttons.CardFor` | index.js:40-48 | the card written for an item at a list position: its title and description markup are never shorter than the item's text, and its `data-index` text is non-empty; `CardForSafe` and `OpenIndexSpec` say what they hold |
| `Buttons.RenderButtons` | index.js:23-51 | an empty list gives only the "No matching buttons found." message. Otherwise there is one card per item, and card k carries the escaped title and description of item k and the `data-index` text of k |
| `Buttons.DecimalStringPlain` | index.js:46 | the index written unescaped into `data-index` contains none of `& < > " '` |
| `Buttons.CardForSafe` | index.js:40-48 | a card's title and description are safe markup, and they decode to the item's own text |
| `Buttons.LookupButton` | index.js:74-76 | `buttonsList[Number(dataIndex)]`: a button found is one of the catalog's; `OpenIndexSpec` says which one |
| `Buttons.OnOpenClick` | index.js:69-79 | the Open click handler: a panel opens exactly when a button is found for the link |
| `Buttons.OpenIndexSpec` | index.js:69-79 | an Open link with index i opens `buttonsList[i]` of the full catalog; an index past its end opens nothing |
| `Buttons.OnSearchInput` | index.js:63-66 | the search handler shows the empty message exactly when nothing matches. Otherwise it shows one card per match, and card k shows the k-th match, but its link opens item k of the full catalog |
| `Buttons.ColorCardZero` | index.js:40-46 | the card written for the Random Color Button at position 0 shows its title unchanged, and its link opens the Endless Button's counter |
| `Buttons.ColorTitlePlain` | index.js:42 | the Random Color Button's title is written into its card unchanged |
| `Buttons.SearchColorOpensCounter` | index.js:46 | running the search handler on the sample catalog with "color" shows one card, the Random Color Button's, and opening that card gives the counter panel, although that item opens the colour panel |
| `Buttons.RenderSearchResults` | index.js:37-50 | corrected rendering: the empty message exactly when nothing matches, otherwise one card per match, and card k shows the k-th match and its link opens that same item from the full catalog |
| `Buttons.SearchColorOpensColor` | index.js:37-50 | the corrected rendering of the same search shows one card, the Random Color Button's, and opening it gives the colour panel |

## Findings

| source | as written | input that shows it | evidently intended | confidence | as-written member | corrected member |
|---|---|---|---|---|---|---|
| index.js:46 | each card's `data-index` is its position in the filtered list, but the click handler (index.js:74-75) reads that position in the full `buttonsList` | the sample catalog with query "color": the only card is the Random Color Button's, numbered 0, and Open on it shows the Endless Button's counter | a card's link opens the item the card shows | high; not executed | `Buttons.SearchColorOpensCounter` | `Buttons.RenderSearchResults` |

## Left out

- The DOM plumbing is not modelled: overlays, `innerHTML` templates, `querySelector('.overlay:last-of-type')`, the Close button, focus and `removeOverlay` (index.js:93-119, 199-221). The escape-key listeners are never removed, so each Escape tries to remove every overlay ever opened. What that does depends on browser event dispatch and exceptions, not on logic in the file.
- `Math.random` is floating point. The integer `Math.floor(Math.random() * 16777215)` is taken as a parameter `n` with `0 <= n < 16777215`.
- The Copy button is not modelled: `navigator.clipboard.writeText`, the "Copied" label and its 1000 ms `setTimeout` revert (index.js:187-195) are asynchronous foreign calls and a timer.
- The dark-mode toggle and the `localStorage` theme are not modelled (index.js:224-241). They are key-value I/O.
- `buttonsList` is never reassigned after start-up, so the catalog is a parameter `buttons`. The initial `renderButtons(buttonsList)` (index.js:245) is `RenderButtons` applied to it.
- The generic panel's markup (index.js:96-104) is not modelled as text. `Panel.Generic` carries the raw title and description, and what escaping does to them (index.js:98-99) is stated by `EscapeHtmlSafe` and `EscapeHtmlRoundTrip`.
- JsString.ToLowerCaseSpec: only the ASCII letters A–Z are mapped. JavaScript's `toLowerCase` also maps other Unicode letters.
- JsString.IncludesSpec: JavaScript strings are UTF-16 code units. Here a string is a sequence of Unicode scalar values, so a surrogate pair counts as one character.
- Buttons.EscapeHtmlSafe: the model takes a string. The `String(text)` coercion of non-string arguments is not modelled, because every caller passes a string.
- Buttons.OpenIndexSpec: `Number(dataIndex)` is modelled only on plain decimal digit strings, which is all that rendering writes. Any other text (empty, signed, with spaces, exponent or hex form) is read as "no button", whereas JavaScript would convert some of them to numbers.
- Buttons.CounterPanel.ClickIncrement: `count` is an unbounded integer. A JavaScript number stops counting exactly past 2^53 increments, and that rounding is not modelled.
- Buttons.ColorPanel.NewColor: the swatch background is kept as the `#RRGGBB` string that was assigned. The browser's re-serialisation of `style.background` (as `rgb(...)`) is not modelled.
