# Chat widget core, modelled in Dafny

This project models the core of the chat widget in `app.js`. That core has
two parts.

**The message formatter** (`appendMessageToUI`). It turns the text of a message
into the HTML of a chat bubble with a chain of global regular-expression
replacements:

1. HTML escaping of `&`, then `<`, then `>`.
2. Extraction of fenced code blocks (```` ```lang … ``` ````) into a side list.
   Each block is replaced by a numbered placeholder token `___CODE_BLOCK_i___`.
3. Inline code spans become `<code>…</code>`, and line breaks become `<br>`.
4. Every placeholder-shaped token is replaced by the wrapper markup of the
   block it names. When a token names no block, reading that block's `lang`
   throws, and the whole append fails.

Each regular expression is written out as an explicit left-to-right scan. It
behaves like JavaScript's `replace` with the `g` flag: match at the current
position, or copy one character and move on. Dafny's `Result` stands in for
the exception.

**The chat turn controller.** It is the class `Chat.ChatWidget`, whose state is:

- the stored history;
- the stored API key and theme;
- the thread shown on the page, as a sequence of nodes in document order (the
  welcome, message bubbles, the loading indicator, error bubbles and the input
  area);
- whether the input area is shown;
- the text in the input box.

Its methods are `loadChatHistory`, `sendChatMessage`, `processAIResponse`,
`retryLastMessage`, the save handler of the settings panel, `setCmdTheme` and
`loadTheme`. Each method is proved against a function of the state it starts
from (`LoadSpec`, `SendSpec`, `ProcessSpec`, `RetrySpec`, `SavedKey`,
`LoadedTheme`). The lemmas about those functions state what a turn does:

- what is shown;
- what is stored, and when nothing is;
- that the thread's shape is kept: at most one welcome, which comes first; the
  input area last; no leftover loading indicator.

The completion request itself is not performed. Its outcome is a parameter:
a reply text, an HTTP status, or a failure with a message. The status may be
any number; the code raises the HTTP error only for a status outside 200-299,
and the model does not depend on which number it is.

Files:

- `wrappers.dfy`: `Option` and `Result`.
- `strings.dfy`: the `\w` and `\d` character classes, decimal rendering and
  parsing of numbers, and `String.prototype.trim`.
- `formatter.dfy`: the four formatting steps, the message element, and the
  properties of both.
- `chat.dfy`: the thread, the turn functions, their properties, and the class.

In three places the code does what a reader might not expect. The model
follows the code in each:

- **Tag and body of a fenced block.** For `` ```js\nconsole.log(1)``` `` the
  code captures the tag `js` and the body `\nconsole.log(1)`. `\w*` stops
  before the newline, and the lazy body keeps it.
  `Formatter.TagEndsAtNewline` states this for every word-character tag
  and every body in which no fence starts before the closing one (the body
  then appears escaped), and `Formatter.NewlineAfterTagExample` for this
  message.
- **Which error bubble retry removes.** The name `retryLastMessage` suggests
  the last turn, but it removes the *first* error bubble in document order
  (`querySelector`). The thread can hold several error bubbles, because every
  failed turn adds one.
- **Messages whose rendering throws.** A message containing placeholder-shaped
  text for a block it lacks makes `appendMessageToUI` throw:
  - during send, the handler stops with the input area still hidden and
    nothing stored;
  - during load, the input area is never put back;
  - for a reply, the catch shows an error bubble and the reply is not stored.

## Model

| member | source | states |
|---|---|---|
| Formatter.Escape | app.js:169-172 | step 1; characterised by `EscapeByChar`, `UnescapeEscape` and `EscapeNoAngles` |
| Formatter.ReplaceAllConcat | app.js:169-172 | replacing one character everywhere distributes over concatenation |
| Formatter.ReplaceAllAbsent | app.js:169-172 | replacing a character that does not occur leaves the text unchanged |
| Formatter.EscapeByChar | app.js:169-172 | the three chained replacements equal escaping each character on its own (`&` to `&amp;`, `<` to `&lt;`, `>` to `&gt;`) |
| Formatter.EscapeConcat | app.js:169-172 | escaping distributes over concatenation |
| Formatter.UnescapeEscape | app.js:169-172 | escaping loses nothing: decoding the three entities gives back the original text |
| Formatter.EscapeNoAngles | app.js:169-172 | escaped text contains no `<` and no `>` |
| Formatter.UnescapePlain | app.js:169-172 | text without `&` decodes to itself |
| Formatter.FenceAt | app.js:176 | the fence expression anchored at one position: a match is at least six characters long and lies within the text; characterised by `FenceAtSource`, `FenceAtSound`, `FenceAtComplete` and `FenceAtShape` |
| Formatter.WordRun | app.js:176 | `\w*` is greedy: the longest prefix of word characters, followed by a non-word character or the end |
| Formatter.FindFence | app.js:176 | the lazy body ends at the first closing fence: a fence starts at the result and at no earlier position, and none exists when there is no result |
| Formatter.FenceAtSource | app.js:176 | a match consumes exactly the opening fence, the tag, the body and the closing fence |
| Formatter.FenceAtSound | app.js:176 | a captured block has the tag's shape (word characters only) and a body that does not start with a word character and holds no fence |
| Formatter.FenceAtComplete | app.js:176 | when the expression does not match, the text does not start with any fence, word-character tag, body and fence |
| Formatter.FenceOpensBeforeLaterFence | app.js:176 | an opening fence followed anywhere later by another fence always matches |
| Formatter.FenceAtShape | app.js:176 | the source text of any block of that shape is matched back to that same block, whatever follows it |
| Formatter.Extract | app.js:175-179 | step 2: one more text piece than blocks, each block of the expression's shape; characterised by `ExtractRoundTrip` and `ExtractTexts` |
| Formatter.ExtractRoundTrip | app.js:175-179 | extraction loses nothing: the text pieces joined with the blocks' source text give back the input |
| Formatter.ExtractTexts | app.js:175-179 | extraction is leftmost-first: no fence starts in a text piece before a block, and no complete match remains in the last piece, so an unclosed fence stays literal |
| Formatter.ExtractNoBacktick | app.js:175-179 | text without a backtick is one text piece and no block |
| Formatter.ExtractPrefix | app.js:175-179 | a backtick-free prefix joins the first text piece and changes nothing else |
| Formatter.ExtractOneBlock | app.js:175-179 | the source text of one well-shaped block extracts to that block between two empty pieces |
| Formatter.TextThenBlockExtract | app.js:169-179 | markup-free, backtick-free text followed by a well-shaped block escapes and extracts to that text, then the block with its body escaped |
| Formatter.EscapeBlockShape | app.js:169-176 | escaping a well-shaped block's body keeps its shape: escaping creates no fence and no leading word character, so the lazy body still ends at the same closing fence |
| Formatter.PlaceholderNumbering | app.js:177-178 | the tokens are numbered in order: the i-th block from k gets the token of k + i |
| Formatter.NextBacktick | app.js:183 | the first backtick of a text, or none when there is none |
| Formatter.InlineCode | app.js:183 | the inline-code replacement; characterised by `InlineSpan`, `InlineUnclosed`, `InlineEmptySpan`, `InlinePlain` and `InlineConcat` |
| Formatter.InlineSpan | app.js:183 | a backtick, one or more non-backticks and a backtick become `<code>`, the content and `</code>`, and scanning resumes after the closing backtick |
| Formatter.InlineUnclosed | app.js:183 | a backtick with no closing backtick after it stays literal, with the rest of the text |
| Formatter.InlineEmptySpan | app.js:183 | two adjacent backticks enclose no content, so the first one stays literal and scanning resumes at the second |
| Formatter.FormatInline | app.js:182-184 | step 3; characterised by `FormatInlineConcat`, `FormatInlinePlain` and `FormatInlineInterleave` |
| Formatter.InlineConcat | app.js:183 | a text whose inline spans are all closed is formatted independently of what follows |
| Formatter.InlinePlain | app.js:183 | text without backticks has no inline spans |
| Formatter.FormatInlineConcat | app.js:182-184 | step 3 distributes over concatenation after a text whose spans are closed |
| Formatter.FormatInlinePlain | app.js:182-184 | text without backticks and newlines passes step 3 unchanged |
| Formatter.FormatInlineNoUnderscore | app.js:182-184 | step 3 introduces no underscore, so it creates no token |
| Formatter.FormatInlineInterleave | app.js:182-184 | placeholders pass step 3 unchanged and each text piece is formatted on its own |
| Formatter.PlaceholderPlain | app.js:178 | a token holds no backtick, newline or markup character |
| Formatter.TokenAt | app.js:187 | a recognised token is the token prefix, a nonempty run of digits (greedy) and the suffix |
| Formatter.TokenAtDigits | app.js:187 | every token of the expression's shape is recognised, whatever its digits (leading zeros included) and whatever follows it |
| Formatter.DigitRunDigits | app.js:187 | `\d+` takes exactly the digits before a non-digit |
| Formatter.TokenAtPlaceholder | app.js:187 | the token written for block i is read back with the digits of i |
| Formatter.LookupBlock | app.js:188 | `codeBlocks[index]` with a digit string finds a block exactly when the digits are the canonical decimal form of an index in range (so `007` finds none), and then it is the block at that index; `LookupBlockIndex` ties this to the array-index rule |
| Formatter.LookupBlockIndex | app.js:188 | the key names a block exactly when it is `String(i)` for some index `i` below the number of blocks, and then it names block `i` |
| Strings.CanonicalIsString | app.js:188 | a digit string with no leading zero (or `0` itself) is the decimal rendering of the number it spells |
| Formatter.LookupPlaceholder | app.js:188 | the digits written for block i find block i |
| Formatter.Label | app.js:189 | the label is the block's tag when it is nonempty, and `text` otherwise |
| Formatter.Wrap | app.js:189-198 | the wrapper markup of a block, with its label twice and its body as captured; characterised by `Label` |
| Formatter.Restore | app.js:187-199 | step 4; characterised by `RestorePlainPrefix`, `RestorePlaceholder`, `RestoreInterleave`, `RestoreOrphanToken` and `TokenWithoutBlockThrows` |
| Formatter.RestorePlainPrefix | app.js:187-199 | text without an underscore is copied through step 4 unchanged |
| Formatter.RestorePlaceholder | app.js:187-199 | the token of an existing block becomes that block's wrapper, and restoring continues after it |
| Formatter.RestoreInterleave | app.js:187-199 | text pieces separated by tokens numbered from k restore to the same pieces separated by the wrappers of blocks k onwards |
| Formatter.Format | app.js:168-199 | the whole formatter; characterised by `FormatPiecewise`, `PlainContent`, `TextThenBlock`, `TagEndsAtNewline` and `TokenWithoutBlockThrows` |
| Formatter.FormatPiecewise | app.js:168-199 | when no text piece holds an underscore and every piece before a block closes its inline spans, the bubble is each text piece formatted on its own, with each block's wrapper in its place and the block's body untouched (no `<br>`, `<code>` or second escaping) |
| Formatter.PlaceholderWithoutBlockThrows | app.js:187-189 | a message consisting of a token with no matching block fails to render, naming that token's digits |
| Formatter.TokenWithoutBlockThrows | app.js:187-189 | a message consisting of any token, `___CODE_BLOCK_007___` included, fails to render, naming the token's digits |
| Formatter.RestoreOrphanToken | app.js:187-189 | after any underscore-free text, a token whose digits name no block makes step 4 fail with that token's digits, whatever follows |
| Formatter.StyleRole | app.js:161 | `assistant` is styled as `ai`, and every other role as itself |
| Formatter.StyleRoleCollision | app.js:161 | two roles get the same style exactly when they are equal or are `ai` and `assistant` |
| Formatter.SenderLabel | app.js:166 | the sender is `You` exactly for the role `user`, and `AI` otherwise |
| Formatter.RenderMessage | app.js:161-204 | the element is built exactly when formatting succeeds, with the class `chat-message` and the style role, the sender label and the formatted body; otherwise it fails with the formatter's error |
| Formatter.PlainContent | app.js:168-199 | content without backticks, underscores or markup characters is shown with only its newlines replaced by `<br>` |
| Formatter.EscapeNoMarkup | app.js:169-172 | text without markup characters is not changed by escaping |
| Formatter.TextThenBlock | app.js:168-199 | text without backticks, underscores or markup characters, followed by a well-shaped block (any body with no fence before the closing one), renders as the formatted text followed by the block's wrapper, whose body is escaped and otherwise as written (no `<code>`, no `<br>`) |
| Formatter.TagEndsAtNewline | app.js:176-196 | for text without backticks, underscores or markup characters, any word-character tag and any body in which no fence starts before the closing one: a fenced block whose tag is followed by a newline renders as the formatted text, then one wrapper with that tag and the escaped body, with the newline kept at its start and not turned into `<br>` |
| Formatter.PlainTagEndsAtNewline | app.js:176-196 | the same for a body with no backtick and no markup character: the wrapper holds the body exactly as written |
| Formatter.NewlineAfterTagExample | app.js:176-196 | `` Use ```js\nconsole.log(1)``` `` renders as `Use ` followed by one wrapper tagged `js` whose body is `\nconsole.log(1)` |
| Strings.NatToString | app.js:178 | the decimal form of an index is a nonempty, canonical digit string |
| Strings.ParseNatToString | app.js:178-188 | the index written into a token is read back as the same number |
| Strings.NatToStringInjective | app.js:178 | distinct indices get distinct tokens |
| Strings.Trim | app.js:245 | `String.prototype.trim`; characterised by `TrimSpec` and `TrimEmptyIff` |
| Strings.TrimSpec | app.js:245 | `trim` removes exactly a whitespace prefix and a whitespace suffix; what is left neither starts nor ends with whitespace |
| Strings.TrimEmptyIff | app.js:245-246 | the trimmed text is empty exactly when the input is all whitespace |
| Chat.RendersIsFormat | app.js:152-212 | appending a message completes exactly when formatting its content succeeds |
| Chat.FailureMessage | app.js:323-324 | an HTTP failure's message is `API Error: ` followed by the decimal status, with no leading zero; other failures keep their own message |
| Chat.InsertPos | app.js:207-211 | a new element goes just before the input area when the input area is on the page, and at the end otherwise |
| Chat.FirstOf | app.js:154 | `querySelector` finds the first node of a kind in document order, or none when there is none |
| Chat.Bubbles | app.js:137 | one bubble per stored message, in order |
| Chat.LogConcat | app.js:152-212 | the conversation shown in a thread is the conversation of its parts, in order |
| Chat.ErrorsConcat | app.js:341-364 | the error messages shown in a thread are those of its parts, in order |
| Chat.RemoveInserted | app.js:271-290 | inserting the loading indicator and removing it again restores the thread |
| Chat.InsertLog | app.js:207-211 | inserting a node adds it at the end of the conversation shown |
| Chat.InsertWellFormed | app.js:207-211 | inserting a bubble keeps the thread's shape and whether the input area is on the page |
| Chat.RemoveAtWellFormed | app.js:155 | removing one node other than the input area keeps the thread's shape |
| Chat.RemoveFirstWellFormed | app.js:154-155 | removing the first welcome or error node keeps the thread's shape and the input area |
| Chat.RemoveWelcomeLog | app.js:154-155 | removing the welcome changes neither the conversation nor the errors shown |
| Chat.RemoveWelcomeAll | app.js:154-155 | in a well-shaped thread, removing the first welcome leaves none |
| Chat.ErrorsNone | app.js:341-364 | a thread without error bubbles shows no error |
| Chat.RemoveFirstError | app.js:379-380 | retry's removal drops the first error shown and only it: the conversation shown afterwards is the old one with its first error entry removed; with no error bubble the thread is unchanged |
| Chat.AppendAtEnd | app.js:207-211 | with no welcome and no input area on the page, a bubble is appended at the end |
| Chat.PlainTextRenders | app.js:168-199 | text that no formatting step touches renders as itself |
| Chat.AdvisoryRenders | app.js:291 | the missing-key advisory is shown verbatim and its rendering never throws |
| Chat.FirstUnrenderable | app.js:137 | the first stored message whose rendering throws: every earlier one renders, and with no result every message renders |
| Chat.LogBubbles | app.js:137 | the bubbles of stored messages are the whole conversation shown, with no error |
| Chat.AppendThread | app.js:152-212 | the thread after appending one message; characterised by `AppendThreadShape` |
| Chat.AppendThreadShape | app.js:152-212 | appending keeps the thread's shape and the input area; it removes the welcome; it adds the message's bubble to the conversation exactly when the message renders; it adds no error |
| Chat.OutcomeThread | app.js:323-364 | the thread after a request with a key; characterised by `OutcomeThreadShape` |
| Chat.OutcomeThreadShape | app.js:323-364 | after the request, the thread gains the reply's bubble, or an error bubble carrying the thrown message (`API Error: <status>`, a failure's message, or the engine's message when the reply throws), and keeps its shape |
| Chat.ProcessSpec | app.js:266-375 | the state after processing a response; characterised by `ProcessShape`, `ProcessMissingKey`, `ProcessReply`, `ProcessFailure`, `ProcessLogGrows` and `ProcessHistoryGrows` |
| Chat.ProcessShape | app.js:266-375 | processing keeps the thread's shape, the input area, the key and the input text, and shows the input area again whenever it is on the page |
| Chat.ProcessMissingKey | app.js:289-300 | with no key or an empty one, the outcome is irrelevant: the advisory is shown and nothing is stored |
| Chat.ProcessReply | app.js:328-339 | a reply that renders is shown and stored after the history that was passed, and adds no error |
| Chat.ProcessFailure | app.js:341-364 | a failed request, or a reply whose rendering throws, shows one error bubble with the thrown message and stores nothing |
| Chat.ProcessStoredRenders | app.js:334-339 | if every stored message renders, this still holds after processing |
| Chat.ProcessLogGrows | app.js:266-375 | each response adds exactly one entry to the conversation shown and keeps what was there |
| Chat.ProcessHistoryGrows | app.js:334-339 | the stored history gains at most one entry and keeps its prefix; it grows exactly when a key is set and the reply renders |
| Chat.SendSpec | app.js:244-264 | the state after sending; characterised by `SendBlank`, `SendStoresUser`, `SendShowsUser`, `SendStopsWhenBubbleThrows` and `SendInvariants` |
| Chat.SendBlank | app.js:245-246 | sending blank input (after trimming) changes nothing |
| Chat.SendStoresUser | app.js:253-263 | a sent text that renders is stored as the user's message before the response, and the input is cleared; a second entry is stored exactly when a key is set and the reply arrives and renders, and it is then the assistant's message with the reply's text |
| Chat.SendShowsUser | app.js:244-264 | a send shows the user's bubble and then exactly one more entry, and ends with the input area shown |
| Chat.SendStopsWhenBubbleThrows | app.js:250-253 | when the user's own text throws on rendering, nothing is stored, the input text is kept and the input area stays hidden |
| Chat.SendInvariants | app.js:244-264 | sending keeps the thread's shape and that every stored message renders |
| Chat.RetrySpec | app.js:377-384 | the state after a retry; characterised by `RetryOutcome` and `RetryInvariants` |
| Chat.RetryOutcome | app.js:377-384 | retry removes the first error and processes the stored history unchanged. The conversation shown is the old one without its first error entry, followed by exactly one new entry: the advisory when the key is missing, the reply's bubble when it renders (the reply then stored after the history), an error bubble with the engine's message when the reply throws, or an error bubble with the failure's message |
| Chat.RetryInvariants | app.js:377-384 | retry keeps the thread's shape and that every stored message renders |
| Chat.LoadSpec | app.js:115-150 | the state after loading the history; characterised by `LoadedThreadShape` and `LoadStored` |
| Chat.LoadedPartial | app.js:137 | the bubbles of a prefix of the history are a well-shaped thread with no welcome, input area or error |
| Chat.LoadedComplete | app.js:127-147 | a complete load shows the welcome exactly for an empty history and the input area exactly when it was on the page, and shows exactly the stored messages |
| Chat.LoadedThreadShape | app.js:115-150 | after loading, the thread is well-shaped, holds the welcome exactly for an empty history, and holds the input area exactly when it was on the page and no message threw; it shows exactly the messages before the first one that throws, with no error |
| Chat.LoadStored | app.js:115-150 | when every stored message renders, loading shows the whole history and brings the input area back and displays it |
| Chat.LoadStep | app.js:137 | one step of the load adds the next message's bubble when it renders, and otherwise ends the load at that message |
| Chat.SavedKey | app.js:76-83 | the key the save handler leaves; characterised by `SavedKeySpec` |
| Chat.SavedKeySpec | app.js:76-83 | the key is missing after saving exactly when the entry is all whitespace; otherwise the saved key is the entry with its surrounding whitespace removed |
| Chat.LoadedTheme | app.js:104-112 | the theme the loader applies; characterised by `LoadedThemeStable` |
| Chat.LoadedThemeStable | app.js:104-112 | the applied theme is the saved one when set and nonempty, the default otherwise, and loading twice changes nothing |
| Chat.ChatWidget.constructor | app.js:7-8 | a page over the given store, holding at most the input area; nothing is rendered yet |
| Chat.ChatWidget.SetCmdTheme | app.js:99-102 | the theme is applied and saved, and nothing else changes |
| Chat.ChatWidget.LoadTheme | app.js:104-112 | the saved theme is applied if set and nonempty; otherwise the default is applied and saved |
| Chat.ChatWidget.SaveConfig | app.js:75-85 | the stored key becomes the trimmed entry, or is removed when that is empty; nothing else changes |
| Chat.ChatWidget.AppendMessage | app.js:152-212 | the welcome is removed and the message's bubble inserted before the input area; the result says whether rendering succeeded (no bubble when it threw) |
| Chat.ChatWidget.LoadChatHistory | app.js:115-150 | the thread is rebuilt from the stored history, as `LoadSpec` states; the result says whether every message rendered |
| Chat.ChatWidget.ShowStored | app.js:136-138 | the loop shows one bubble per stored message up to the first whose rendering throws |
| Chat.ChatWidget.ProcessAIResponse | app.js:266-375 | the state after processing is `ProcessSpec` of the state before, the passed history and the outcome |
| Chat.ChatWidget.ShowLoading | app.js:271-290 | the loading indicator leaves no trace once it is removed |
| Chat.ChatWidget.AnswerMissingKey | app.js:289-300 | without a key, the advisory is shown and the input area is displayed |
| Chat.ChatWidget.AnswerOutcome | app.js:302-374 | with a key, the outcome is shown; a rendered reply is stored; the input area is displayed |
| Chat.ChatWidget.SendChatMessage | app.js:244-264 | the state after sending is `SendSpec` of the state before and the outcome |
| Chat.ChatWidget.SubmitText | app.js:248-261 | the input area is hidden and the user's bubble shown; when that rendering succeeds, the input is cleared and the text stored |
| Chat.ChatWidget.RetryLastMessage | app.js:377-384 | the state after retrying is `RetrySpec` of the state before and the outcome |

## Left out

- **Callers and setup:**
  - The DOM event wiring is not modelled: the Enter key, the textarea resize, focus-on-click and the settings panel's open and close buttons. The handlers are the model's entry points.
  - The start-up handler is not modelled. It logs a message, wires the events (above), calls `loadTheme`, and calls `loadChatHistory` only when the chat history element exists on the page; `loadTheme` and `loadChatHistory` are modelled.
- **Effects with no state:** focus, scrolling and `alert` change none of the state modelled.
- **The request:** the completion request is not performed. This leaves out its URL, headers, model name and system prompt. Its outcome is a parameter of `Outcome`.
- **JSON:**
  - JSON parsing and serialisation of the stored history are not modelled. The store holds the history as a sequence of messages.
  - The history is assumed to parse. A corrupt stored blob would throw at parse time.
- **Reply shape:** a reply whose content is not a string is not modelled. It is covered by `Failure` only when reading it throws.
- **Markup:**
  - The wrapper and bubble markup is kept as fixed strings without the template's indentation and line breaks.
  - The sender and bubble markup around the formatted body is not modelled. `MessageView` carries the class, the sender and the body instead.
- **Other functions:**
  - `copyCode` is not modelled: it reads the DOM and the clipboard, which are outside this model.
  - The theme and wallpaper styling is not modelled.
- **Concurrency:** a request is treated as finishing before the next handler runs. The handler suspends at `await fetch` and `await response.json()`, and older error bubbles keep their Retry button, so the code lets a Retry start while another request is pending. That interleaving is not modelled.
- **Other storers:** other tabs writing the same store are not modelled.
- **Characters:** Dafny strings are sequences of code points, while JavaScript strings are sequences of UTF-16 code units. No behaviour is lost: every character the expressions match is ASCII, and every character `trim` removes is a single code unit.
- **Engine text:** `Chat.UndefinedBlockMessage` takes the message a reply that throws gets from V8. Other engines word this message differently.
- `Formatter.FormatPiecewise`: states the bubble piece by piece only under `Separable`, so text pieces with underscores or unclosed inline spans are covered only by `Format` itself.
- `Chat.Renders`: is stated through the countdown `RendersWithin` (and `Formatter.Extract`, `Formatter.FenceAt` through `ExtractWithin`, `FenceAtWithin`). These are proof devices equal to the plain definitions (`RendersIsFormat`, `ExtractUnfold`, `FenceAtUnfold`) and model nothing further; `Chat.RendersWithinZero` and `Chat.RendersIsFormat` are the induction that ties the countdown to `Format`, not properties of the widget.
