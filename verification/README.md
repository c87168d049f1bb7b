# whispr chat screen, modelled in Dafny

whispr is a React Native chat app whose one screen (`app/index.tsx`) talks to
Gemini. This project models the logic of that screen:

- **`cleanMarkdown`** replaces every match of `/\*\*(.*?)\*\*/g` by its capture. It is modelled as a
  left-to-right scan that cuts the text into literal characters and bold matches
  (`markdown.dfy`). The scan is leftmost-first, non-greedy and non-overlapping, and a span never
  crosses a line terminator.
- **`parseContent`** cuts a message text into text and math segments (`segmenter.dfy`):
  - `String.prototype.split` with the capturing expression `(\$\$[^$]+\$\$)`, following the
    ECMAScript split algorithm;
  - classification of each part by its shape (`$$` at both ends);
  - trimming of each part;
  - dropping of parts that are empty after trimming.
- **The chat lifecycle of `sendMessage`** (`chat.dfy`) is a `ChatScreen` class with three fields:
  the message list, the input text and the `loading` flag.
  - `Dispatch` is the guard followed by the user record and the `__LOADING__` placeholder.
  - `Complete` filters out the placeholder, appends one bot or error record and clears the flag.
  - `SendMessage` runs both phases.
  - `WellFormed` is the invariant that every reachable state keeps.
- **`renderMessage`'s choice** between the typing indicator and a bubble of parsed segments.

Two support files complete the project:

- `js_string.dfy` holds `String.prototype.trim`, with the full ECMAScript whitespace set, and the
  decimal rendering of `Date.now()` used for record ids.
- `wrappers.dfy` holds `Option`, which stands for `undefined` on the optional-chaining paths.

On the reply `The answer is $$4$$.`, `parseContent` gives three segments: text `The answer is`,
math `4`, and the trailing `.` as a text segment of its own (`Segmenter.ParseAnswer`).

## Model

| member | source | states |
|---|---|---|
| JsString.Trim | app/index.tsx:72-74 | the result has no whitespace at either end, and it is empty exactly when the input is all whitespace |
| JsString.TrimIsSlice | app/index.tsx:72-74 | trimming only removes whitespace from the two ends: the result is a slice of the input with all-whitespace text before and after it |
| JsString.TrimIdempotent | app/index.tsx:72-74 | trimming twice is trimming once |
| JsString.TrimTrimmed | app/index.tsx:72-74 | a text with no whitespace at either end is left as it is |
| JsString.Decimal | app/index.tsx:31 | `Date.now().toString()` is a non-empty string of decimal digits |
| Markdown.FindClose | app/index.tsx:26 | the non-greedy `(.*?)\*\*` closes at the first `**`, and not at all when a line terminator comes first |
| Markdown.Scan | app/index.tsx:26 | the global replace cuts the text into at most one piece per character, and each match uses up at least four characters |
| Markdown.CleanMarkdown | app/index.tsx:25-27 | output length is input length minus 4 per match; a text without `**` is returned unchanged |
| Markdown.ScanLossless | app/index.tsx:26 | putting the scanned pieces back together gives the input: the scan loses nothing and invents nothing |
| Markdown.Render | app/index.tsx:26 | replacing each match by `$1` shortens the text by exactly four characters per match |
| Markdown.RenderNoBold | app/index.tsx:26 | with no match, the replacement changes nothing |
| Markdown.NoMatchNoBold | app/index.tsx:26 | where the expression matches nowhere, the scan finds no match |
| Markdown.InnerMinimal | app/index.tsx:26 | a captured span holds no line terminator, no `**` and no trailing `*`: it is the shortest one |
| Markdown.ScanPieceAt | app/index.tsx:26 | each piece starts where the previous pieces end; a literal sits where no match starts (leftmost); a match has the shortest span (non-greedy); matches do not overlap |
| Markdown.MatchFound | app/index.tsx:26 | a match anywhere in the text makes the scan find at least one |
| Markdown.CleanUnchangedIffNoMatch | app/index.tsx:25-27 | `cleanMarkdown` returns its input unchanged exactly when the expression matches nowhere in it |
| Markdown.CleanTwoMatches | app/index.tsx:26 | `a**b**c**d**e` becomes `abcde` |
| Markdown.CleanEmptySpan | app/index.tsx:26 | `****` becomes the empty string |
| Markdown.CleanStopsAtLineBreak | app/index.tsx:26 | `**a\nb**` is left unchanged, because a span cannot cross a line break |
| Markdown.CleanUnpaired | app/index.tsx:26 | an unpaired `**` is left in place |
| Markdown.CleanSingleStars | app/index.tsx:26 | single `*` characters are left in place |
| Segmenter.RunEnd | app/index.tsx:69 | the greedy `[^$]+` run stops at the first `$` or at the end of the text |
| Segmenter.MatchEnd | app/index.tsx:69 | a match found at a position is `$$`, a non-empty run without `$`, then `$$` |
| Segmenter.MatchEndUnique | app/index.tsx:69 | every substring of the shape of a match is the match found at its start, so no match is missed |
| Segmenter.SplitFrom | app/index.tsx:69 | the remaining parts are odd in number, concatenate to the rest of the text, and hold matches at odd positions |
| Segmenter.Split | app/index.tsx:69 | `split` yields 2k+1 parts that concatenate to the input, with the k matches at odd positions |
| Segmenter.SplitFromPositions | app/index.tsx:69 | the parts lie in the text in order: each even part contains no match start, and each odd part is the match found where it begins |
| Segmenter.SplitPositions | app/index.tsx:69 | the whole split alternates gaps free of matches with matches, left to right |
| Segmenter.SplitFromNoMatch | app/index.tsx:69 | where no match starts, the rest of the text is one last part |
| Segmenter.SplitNoMatch | app/index.tsx:69 | a text where no match starts is split into itself alone |
| Segmenter.MathShaped | app/index.tsx:69-72 | every match of the split expression passes the `$$`…`$$` shape test, so it becomes math; a shaped part starts and ends with `$` (the two tests may share characters); a shaped part has empty inner text exactly when it has at most four characters, as `$$`, `$$$` and `$$$$` do |
| Segmenter.Inner | app/index.tsx:72 | for a part of four or more characters, the part is its first two characters, the result, then its last two (so the result is four shorter); a shorter part gives the empty string |
| Segmenter.Classify | app/index.tsx:71-75 | a part is math exactly when it starts and ends with `$$`; the content is always trimmed |
| Segmenter.ClassifyContent | app/index.tsx:72-74 | the content is the text between the two `$$` (math) or the whole part (text), with only whitespace removed from its two ends |
| Segmenter.DropEmpty | app/index.tsx:76 | the filter keeps the segments in order, keeps every non-empty one, and leaves no empty one |
| Segmenter.DropEmptyCounts | app/index.tsx:76 | the filter keeps each non-empty segment exactly as many times as it occurs and no empty one, which with the order clause of `DropEmpty` determines the result |
| Segmenter.ParseContent | app/index.tsx:68-77 | the segments are a subsequence of the classified parts, in input order, at most 2k+1 of them, each with non-empty trimmed content |
| Segmenter.ParseContentCounts | app/index.tsx:68-77 | every non-empty classified part is kept as often as the split yields it, and no empty one: the segments are exactly the non-empty classified parts in input order |
| Segmenter.SubsequenceShorter | app/index.tsx:76 | a filtered list is no longer than its source and holds only its elements |
| Segmenter.ParseNoDollars | app/index.tsx:69-76 | text without `$$` gives at most one segment: a text segment holding the trimmed input |
| Segmenter.ParseBlank | app/index.tsx:69-76 | empty or whitespace-only text gives no segment |
| Segmenter.ParseOneToken | app/index.tsx:69-76 | a text that is one match gives one math segment holding its trimmed inside, or none when that is blank |
| Segmenter.ParseBeforeAfter | app/index.tsx:68-77 | `before $$x+1$$ after` gives text `before`, math `x+1`, text `after` |
| Segmenter.ParseAnswer | app/index.tsx:68-77 | `The answer is $$4$$.` gives text `The answer is`, math `4`, text `.` |
| Segmenter.ParseRepeated | app/index.tsx:68-77 | equal segments are all kept: `1 $$x$$ 1` gives text `1`, math `x` and text `1` again |
| Segmenter.ParseShapedNonMatch | app/index.tsx:71-72 | classification goes by shape: `$$a$b$$` is no match, yet it gives the math segment `a$b` |
| Segmenter.ParseBareDollars | app/index.tsx:71-76 | `$$` gives no segment |
| Segmenter.ParseThreeDollars | app/index.tsx:71-76 | `$$$` gives no segment |
| Segmenter.ParseFourDollars | app/index.tsx:71-76 | `$$$$` gives no segment |
| Segmenter.ParseDangling | app/index.tsx:69-74 | a dangling `$$`, as in `a $$ b`, stays literal text |
| Chat.UserId | app/index.tsx:31 | a user record's id is all digits |
| Chat.LoadingId | app/index.tsx:35 | the placeholder id is the user-id digits followed by `_loading`, so it has the placeholder's shape |
| Chat.BotId | app/index.tsx:50 | a reply's id does not have the placeholder's shape and differs from the user and placeholder ids of the same instant |
| Chat.ErrId | app/index.tsx:54 | an error record's id does not have the placeholder's shape and differs from the user, placeholder and reply ids of the same instant |
| Chat.IdShapes | app/index.tsx:31-54 | only the placeholder's id ends in `_loading`; the user, bot, error and welcome ids do not; the user id differs from the placeholder id |
| Chat.Or | app/index.tsx:47 | JavaScript's logical-or on an optional string: a present non-empty value always wins; an absent or empty one gives the fallback |
| Chat.Outcome | app/index.tsx:39-54 | the appended record is a bot record exactly when a key is present and the request succeeded, and then its text is `cleanMarkdown` of the reply's text when that is non-empty; an error record has non-empty text taken from the API message, the exception message or `Unknown error.`; with no key it is `Gemini API key not found.` |
| Chat.OutcomeAnswered | app/index.tsx:47-50 | an answer with non-empty text appends the bot record holding `cleanMarkdown` of that text, under the reply id |
| Chat.OutcomeNoResponse | app/index.tsx:47-48 | an answer with no text, or empty text, is shown as `No response.` |
| Chat.OutcomeErrorText | app/index.tsx:52 | an error record's text is the first non-empty value among the API message, the exception message and `Unknown error.` |
| Chat.OutcomeNotLoading | app/index.tsx:50-54 | the appended record never carries a placeholder-shaped id |
| Chat.RemoveId | app/index.tsx:49 | the filter is no longer than the list and leaves no record with the removed id |
| Chat.RemoveIdKeeps | app/index.tsx:49 | the filter keeps every occurrence of every record with another id, in its order, and no record with the removed id |
| Chat.RemoveIdAbsent | app/index.tsx:53 | filtering out an id that no record carries changes nothing |
| Chat.RemoveIdLast | app/index.tsx:49 | when only the last record carries the id, the filter removes exactly that record |
| Chat.WellFormed | app/index.tsx:14-58 | the states the screen reaches: in every one, only the last record can be the placeholder, and only while loading |
| Chat.DispatchKeepsWellFormed | app/index.tsx:30-36 | dispatching from an idle state gives a loading state whose last record is the only placeholder |
| Chat.PlaceholderRemoved | app/index.tsx:49 | while loading, filtering out the placeholder's id removes exactly the placeholder |
| Chat.CompleteKeepsWellFormed | app/index.tsx:49-56 | replacing the placeholder with the outcome gives an idle state with no placeholder left |
| Chat.ChatScreen.constructor | app/index.tsx:14-18 | the screen starts with the welcome record, empty input and `loading` false, a well-formed state |
| Chat.ChatScreen.SetInput | app/index.tsx:134 | typing replaces the input and touches nothing else |
| Chat.ChatScreen.Dispatch | app/index.tsx:30-36 | it sends exactly when the trimmed input is non-empty and not loading; otherwise nothing changes; when it sends, it appends the user record with the untrimmed input and then the placeholder, clears the input, sets `loading`, and keeps the state well-formed |
| Chat.ChatScreen.Complete | app/index.tsx:39-56 | it removes the records with the placeholder id and appends the one outcome record, in order, clearing `loading`; for the awaited placeholder it drops exactly the last record and keeps the state well-formed |
| Chat.ChatScreen.SendMessage | app/index.tsx:29-58 | a send grows a well-formed list by exactly the user record and the outcome, with no placeholder left; a blocked send changes nothing |
| Chat.SentinelCollision | app/index.tsx:80 | with the as-written `renderMessage`, a well-formed idle state in which a user record renders as the typing indicator |
| Chat.PlaceholderOnlyLast | app/index.tsx:35-53 | in a well-formed state, only the last record can be the placeholder, and only while loading |
| Chat.TypingExactlyWhileLoading | app/index.tsx:79-127 | with the corrected `renderMessage` mapped over the list, in every well-formed state the indicator is shown for exactly one record, the last, while loading, and for none otherwise |
| Chat.UserRecordsAreBubbles | app/index.tsx:92 | with the corrected `renderMessage`, a user record is always a bubble of its parsed text (the as-written test at line 80 draws a user record holding `__LOADING__` as the indicator) |
| Chat.AnswerRendered | app/index.tsx:47-48 | the reply `The answer is $$4$$.` survives `cleanMarkdown` unchanged and renders as text, math, text |
| Chat.AskTwoPlusTwo | app/index.tsx:29-58 | from the initial screen, sending `2+2` and receiving `The answer is $$4$$.` leaves the welcome, the user record and the bot record, with no placeholder, and the answer drawn as three segments |

## Left out

- The HTTP request (`axios.post`, app/index.tsx:40-46) is network I/O. Its result enters as a `Reply` parameter. The request body, which carries the untrimmed input, is not modelled.
- The API-key lookup in Expo constants or the environment (app/index.tsx:10) is ambient configuration. It enters as a `keyPresent` flag.
- `Date.now()` (app/index.tsx:31, 35, 50, 54) is the clock. Its three readings enter as natural-number parameters.
- Rendering details are UI only and not modelled: styles, avatars, bubble alignment, the keyboard handling and the auto-scroll effect (app/index.tsx:21-23, 60-66, 93-195). A rendered record is either the typing indicator or a bubble of its sender and segments.
- React's `setState` is asynchronous. The model composes the functional updates in the order they are issued.
- A second press that arrives before React re-renders is not modelled. It would read the stale `loading` and `input` values captured by the closure.
- `Chat.ChatScreen.SendMessage`: assumes the reply arrives before anything else happens on the screen. `Dispatch` and `Complete` on their own allow other steps in between.
- `Chat.ChatScreen.SendMessage`: states the net effect of a send only for a well-formed starting state. From an arbitrary list, `Complete` states what the filter does.
- `Chat.ChatScreen.SetInput`: has no `loading` guard. The text box's `editable={!loading}` (app/index.tsx:138) is a UI property.
- Exceptions whose `message` is not a string, and replies whose text is not a string, are not modelled. `Reply` holds optional strings only.
- Strings are sequences of Dafny characters, not UTF-16 code units. Surrogate pairs, which `trim` and the regular expressions see as two code units, are one character here.
- `app/LatexRenderer.tsx` is not part of this model. It hands the math content to MathJax in a WebView, an external library.
- `app.config.js` is not part of this model. It is static build configuration.

## Findings

| source | as written | input that shows it | evidently intended | confidence | as-written member | corrected member |
|---|---|---|---|---|---|---|
| app/index.tsx:80 | the typing indicator is chosen by the record's text alone, `item.text === '__LOADING__'` | the user sends `__LOADING__`: once the reply is in and `loading` is false, their own record is still drawn as "Gemini is typing..." in the bot's row | the indicator is shown only for the placeholder appended at line 36, which the list identifies by its `_loading` id | not executed | Chat.RenderByText, Chat.SentinelCollision | Chat.RenderMessage, Chat.TypingExactlyWhileLoading, Chat.UserRecordsAreBubbles |
