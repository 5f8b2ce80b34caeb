# Random picker pool model

A Dafny model of the pool logic in the `RandomPicker` class of `script.js`, a
browser page that draws names one at a time from a list. The picker keeps
two lists of `{id, value}` records: `items` still in the draw and
`removedItems` already drawn. It fills `items` from a bundled CSV file or an
uploaded one. A draw spins for three seconds and commits the chosen item.
A reset puts the drawn items back.

The model is functional. Immutable sequences of `Item(id, value)` records
are changed by pure functions:

- `Text`: the JavaScript string operations the parser relies on.
  `split('\n')`, `trim()` with the ECMAScript white-space and line-terminator
  sets, `replace(/"/g, '')` and `replace(/,.*$/, '')` with the exact
  semantics of `.` and `$` without the multiline flag.
- `Items`: the record, the id invariants, the decimal rendering of ids and
  the 150-item synthetic dataset.
- `Parse`: the row parser shared by the initial load and the upload.
- `Pool`: load, upload, commit of a draw, and reset.
- `Spin`: the `isSpinning` / `finalIndex` state machine. It covers the click
  guard, the animation tick over integer milliseconds and event traces.
- `History`: the newest-first listing with draw ordinals.
- `Scenarios`: concrete runs of the above.

`Math.random()` is a parameter: a `Sample` is an exact fraction `num/den` in
[0, 1). The file read, the fetch, the DOM, timers and cookies are outside the
model. Their results enter as parameters: `Fetched`, `Upload`, the `elapsed`
milliseconds of a frame.

In `/,.*$/`, `.` does not match a line terminator and there is no `m`
flag. So the pattern cuts at the leftmost comma that has no line terminator
after it, which is not always the first comma. A row such as `a,b\rc` has an
interior carriage return, so it keeps its comma
(`Scenarios.CarriageReturnKeepsComma`). In text with `\n` or `\r\n` line
endings, the trim removes each row's final `\r` before the pattern runs. No
label of such text holds a comma (`Parse.ParsedValuesClean`).

## Model

| member | source | states |
|---|---|---|
| Text.TrimStart | script.js:57 | the result is a suffix of the input, everything cut off is trimmable white space or a line terminator, and the result does not start with one |
| Text.TrimEnd | script.js:57 | the result is a prefix of the input, everything cut off is trimmable, and the result does not end with a trimmable character |
| Text.Trim | script.js:57 | `trim()` is never longer than its input and neither end of a non-empty result is white space or a line terminator |
| Text.TrimIsInfix | script.js:57 | `trim()` gives the infix of the row left once white space and line terminators, and only those, are cut from both ends |
| Text.InfixOfCuts | script.js:57 | a prefix cut from a suffix of a row, where only white space and line terminators were cut at either step, is the infix that starts where the suffix does, with only such characters around it |
| Text.TrimStartAppend | script.js:57 | once a row holds a character trim keeps, text appended after it does not move the leading cut of trim |
| Text.TrimEndDropsTrimmable | script.js:57 | a white-space or line-terminator character appended at the end is cut again by the trailing cut of trim |
| Text.TrimAppendTrimmable | script.js:57 | appending a white-space or line-terminator character to any row leaves its trimmed text unchanged, the all-blank row included |
| Text.TrimDropsFinalTerminator | script.js:104 | a row whose only line terminator is its last character, such as the `\r` of a CRLF ending, trims to text with no line terminator |
| Text.TrimEmptyIff | script.js:54 | a row trims to the empty string exactly when every character of it is white space or a line terminator |
| Text.TrimChars | script.js:57 | trimming introduces no character that was not in the row |
| Text.StripQuotes | script.js:57 | removing `"` leaves no quote, keeps every other character that occurs, and never lengthens the row |
| Text.StripQuotesConcat | script.js:57 | quote removal works character by character, so it distributes over concatenation |
| Text.StripQuotesNoQuotes | script.js:57 | a quote-free row is left unchanged by quote removal |
| Text.CutAtComma | script.js:57 | the result is a prefix that stops at the leftmost comma with no line terminator after it, or the whole string if there is no such comma |
| Text.CutAtCommaSingleLine | script.js:57 | on a string without line terminators the cut result holds no comma, and when something was cut the cut is at a comma |
| Text.Split | script.js:52 | `split('\n')` returns at least one piece, even for the empty text |
| Text.SplitNewlineFree | script.js:52 | no piece of the split contains a newline |
| Text.SplitChars | script.js:52 | every character of a piece occurs in the text that was split |
| Text.JoinSplit | script.js:52 | joining the pieces with newlines gives the original text back |
| Text.SplitPrefix | script.js:99 | a newline-free prefix merges into the first piece of what follows it |
| Text.SplitFirstPrefix | script.js:52 | the first piece of a split is the text up to the first newline |
| Text.SplitTerminatorsAtEnd | script.js:99 | splitting text with `\n` or `\r\n` line endings gives rows whose only other line terminator, if any, is their last character |
| Text.SplitJoin | script.js:99 | splitting text made by joining newline-free lines gives exactly those lines back |
| Items.NumberedFromOneDistinct | script.js:56 | ids assigned as position + 1 are pairwise distinct |
| Items.DecimalString | script.js:74 | the template-literal rendering of an id is a non-empty run of digits without a leading zero |
| Items.DecimalRoundTrip | script.js:74 | reading the decimal rendering back gives the number |
| Items.PlaceholderLabel | script.js:74 | the synthetic label is the prefix `항목 ` followed by decimal digits, with no leading zero, that read back as the id |
| Items.PlaceholderLabelInjective | script.js:74 | two ids with the same placeholder label are the same id |
| Items.GenerateInitialData | script.js:71-75 | the fallback list has 150 items with ids 1..150 and item k labelled with the placeholder for k |
| Items.GeneratedItemsDistinct | script.js:71-75 | the fallback items have distinct ids and pairwise distinct labels |
| Parse.CleanValue | script.js:57 | a label holds no quote; it is the prefix of the trimmed, quote-free row that ends just before the leftmost comma with no line terminator after it, or the whole row when there is no such comma |
| Parse.CleanValueSingleLine | script.js:57 | when the trimmed row has no line terminator, as for a CRLF row, the label holds no comma: it is the text before the first comma, or all of it when there is none |
| Parse.CrlfRowSameLabel | script.js:104 | every row, empty or blank or with white space before the carriage return included, trims to and cleans to the same label with a CRLF ending as with a plain LF ending |
| Parse.KeepNonBlank | script.js:54 | the filter keeps only rows that do not trim to nothing, all taken from the input, never more than it had |
| Parse.KeepNonBlankMembers | script.js:54 | a row survives the filter exactly when it is an input row that does not trim to nothing |
| Parse.KeepNonBlankConcat | script.js:54 | the filter works row by row, so surviving rows keep their source order |
| Parse.BlankRowIgnored | script.js:101 | inserting a blank row anywhere in the input does not change the filtered rows |
| Parse.KeepNonBlankCons | script.js:101 | a non-blank row in front of the rows is kept in front of what the filter keeps of them |
| Parse.AllKept | script.js:101 | rows that are all non-blank pass the filter unchanged |
| Parse.NumberRows | script.js:55-58 | numbering gives one item per surviving row, in order, with ids 1..N and value the cleaned row |
| Parse.ParseItems | script.js:52-58 | parsing gives one item per non-blank line in line order, with value the cleaned line, ids 1..N contiguous and distinct, and no quote in any value |
| Parse.OneItemPerLine | script.js:99-105 | text made of N non-blank, newline-free lines parses to exactly N items, item k being id k + 1 with the cleaned line k |
| Parse.ParsedValuesClean | script.js:104 | in text with `\n` or `\r\n` line endings, no parsed value holds a comma or a quote |
| Pool.LoadInitial | script.js:48-64 | the initial load yields the parse of the fetched text, or exactly the 150 synthetic items if the fetch failed; in both cases nothing is drawn, ids are 1..N and the pool invariant holds |
| Pool.HandleUpload | script.js:94-107 | a readable file replaces the items by its parse and empties the drawn list whatever the state was; no file or an unreadable one changes nothing; the invariant is kept |
| Pool.Without | script.js:184 | the by-id filter never lengthens the list and leaves no item with the filtered id |
| Pool.WithoutMembers | script.js:184 | an item survives the by-id filter exactly when it was present and has a different id |
| Pool.WithoutDistinct | script.js:184 | with distinct ids, filtering out the id at position i removes exactly that position and keeps the rest in order |
| Pool.WithoutAbsent | script.js:184 | filtering out an id no item carries changes nothing |
| Pool.MoveToEndDistinct | script.js:183-184 | moving one item from the pool to the end of the drawn list keeps all ids distinct |
| Pool.Commit | script.js:181-184 | committing position i appends that item to the drawn list and removes every item with its id from the pool |
| Pool.CommitMovesOne | script.js:181-184 | on a valid pool a commit removes exactly position i and keeps the order of the rest; it conserves the total count and the multiset of all items, and it keeps ids distinct |
| Pool.Reset | script.js:201-203 | after a reset nothing is drawn, the remaining items come first and the drawn items follow them in draw order |
| Pool.ResetProperties | script.js:201-203 | a reset keeps the multiset of all items and the invariant, and a second reset does nothing |
| Pool.CommitThenReset | script.js:181-203 | a draw followed by a reset restores the multiset with nothing drawn; from a fresh pool the drawn item ends up last |
| Spin.IndexFor | script.js:174 | `Math.floor(sample * n)` is the index whose n-th of [0, 1) holds the sample, so it is in range |
| Spin.EveryIndexReachable | script.js:174 | every position of a non-empty pool is chosen by some sample |
| Spin.Idle | script.js:13 | a fresh picker is not spinning and is valid over a valid pool |
| Spin.Select | script.js:162-174 | a click while spinning or on an empty pool changes nothing, and the alert fires exactly when the pool is empty; otherwise the picker spins towards `Math.floor(sample * items.length)`, an index within the pool; the pool is never touched and the invariant is kept |
| Spin.SelectReachesEveryIndex | script.js:174 | an idle click on a non-empty pool can aim the spin at any position of the pool: the sample k/n selects position k |
| Spin.Finish | script.js:181-186 | finishing stops the spin and appends the target to the drawn list; on a valid picker it removes exactly the target and keeps the invariant |
| Spin.TickAt | script.js:119-145 | a tick shows three slots exactly while elapsed < duration, each slot an item of the pool; the centre slot is the target once more than four fifths of the duration has passed; otherwise the tick commits the draw |
| Spin.ResetPicker | script.js:201-203 | a reset, even during a spin, turns the pool into `Reset` of it (items then drawn items, nothing drawn) and keeps the spin; the item at the pending index is unchanged and the invariant is kept |
| Spin.UploadPicker | script.js:94-107 | an upload changes only the pool, and it keeps the invariant when no spin is pending |
| Spin.Step | script.js:88-92 | a click, a reset or a chosen file goes to its handler; a frame while the draw is pending only redraws before the duration and commits the draw and stops the spin at or after it; a frame with no pending draw changes nothing |
| Spin.Run | script.js:137-143 | a trace with no events leaves the state alone, and clicks on the pick button alone never change the pool |
| Spin.RunAppend | script.js:137-143 | events are handled one at a time in order: one more event after a trace steps the state the trace left |
| Spin.StepPreservesValid | script.js:162-209 | every click, frame, reset or idle-time upload keeps ids distinct and the pending index inside the pool |
| Spin.RunPreservesValid | script.js:162-209 | any trace without an upload during a spin keeps the picker invariant |
| Spin.RunConservesItems | script.js:181-203 | without uploads, a trace of clicks, frames and resets never creates or loses an item |
| History.RecentEntries | script.js:224-230 | the listing has one line per drawn item, newest first, and line k shows draw n - k with badge n - k |
| History.RecentView | script.js:223-240 | the panel shows the notice exactly when nothing has been drawn, and the listing otherwise |
| History.BadgeIsDrawOrdinal | script.js:230 | each badge b lies in 1..n and labels the b-th drawn item; badges decrease by one line by line |
| History.NewDrawOnTop | script.js:224-230 | a new draw adds one line on top with the next ordinal and leaves the earlier lines unchanged |
| Scenarios.DrawAndReset | script.js:181-203 | drawing B from A, B, C leaves A, C with B drawn, and a reset gives A, C, B |
| Scenarios.TrimNoop | script.js:57 | a row with no white space at either end is its own trim |
| Scenarios.CleanSimpleRow | script.js:57 | a trimmed, quote-free single-line row is cut just before its first comma |
| Scenarios.ParseTwoRows | script.js:99-105 | two non-blank lines joined by a newline parse to exactly items 1 and 2 with the cleaned lines |
| Scenarios.UploadTwoRows | script.js:99-107 | uploading two non-blank lines gives items 1 and 2 with the cleaned lines, nothing drawn |
| Scenarios.CleanSampleRow | script.js:57 | the rows `X,foo` and `Y,bar` are each kept and clean to `X` and `Y` |
| Scenarios.UploadTwoLines | script.js:99-107 | uploading `X,foo\nY,bar` gives exactly items 1 `X` and 2 `Y` with nothing drawn, whatever the pool held before |
| Scenarios.CrlfRowCleans | script.js:104 | the CRLF row `X,foo\r` cleans to `X` |
| Scenarios.ParseOneRow | script.js:99-105 | a single non-blank, newline-free row parses to one item |
| Scenarios.CarriageReturnKeepsComma | script.js:104 | the row `a,b\rc` cleans to itself, comma included, because the comma is followed by a carriage return |
| Scenarios.UploadMidSpinLeavesStaleIndex | script.js:94-107 | an upload during a spin can leave the pending index outside the new pool |

## Left out

- Cookie persistence (`saveStateToCookie`, `loadStateFromCookie`, script.js:21-46). It uses JSON encoding, URI encoding, `document.cookie` and `Date`. The constructor's restored state is overwritten by `loadInitialData` anyway, so `Pool.LoadInitial` starts from nothing.
- The `fetch('/djnames.csv')` and `file.text()` calls. They are asynchronous I/O. Their outcome is the `Fetched` or `Upload` parameter.
- DOM work: `initializeElements`, `attachEventListeners`, `updateDisplay`, `updateCounts`, CSS class changes, the collapsible history title and the HTML markup of the listing. These are UI only. The counts shown are `|items|` and `|removed|`.
- `alert` and `console.error`. `Spin.Select` records whether the empty-pool alert fires. An unreadable upload is `Upload.Unreadable`, which leaves the pool unchanged.
- The easing curve, the frame delay, `setTimeout`, `requestAnimationFrame` and the 1000 ms bounce. These are floating-point timing. Frames are the `Frame` events of a trace, at whatever elapsed time the caller gives.
- Spin.IndexFor: `Math.random()` is an exact fraction in [0, 1) rather than an IEEE double. Rounding of `random * length` is not modelled.
- Spin.TickAt: progress is compared over integer milliseconds (`elapsed < duration`, `5 * elapsed > 4 * duration`) rather than as the floating-point quotient `elapsed / duration`. The two agree except where the double rounding falls exactly on a boundary.
- Spin.RunPreservesValid: this requires that no file arrives during a spin. The page does not guard against that interleaving, and `Scenarios.UploadMidSpinLeavesStaleIndex` shows the invariant failing then. What `finishSelection` does with the stale index is not modelled.
- A frame that arrives while the pending index lies outside the pool changes nothing in the model. The pool can change under a pending draw in two ways. A file can be chosen during a spin. Or the bundled-list fetch can resolve during a spin. The constructor does not await `loadInitialData` (script.js:16) and attaches the listeners first (script.js:15), so a spin can start on the restored or synthetic items. On the page `items[finalIndex]` is then `undefined`, and `finishSelection` pushes it onto the drawn list (script.js:183). What follows depends on the new pool. If it is empty, as after an all-blank file, the filter at script.js:184 never runs its callback and `isSpinning` is cleared (script.js:186); the page throws later, at `${item.value}` in `updateRecentItems` (script.js:229). If it is not empty, the filter throws at `selectedItem.id` (script.js:184) while `isSpinning` is still set. Pick clicks are ignored from then on (script.js:163). A reset still runs `resetItems` (script.js:202), which spreads the `undefined` entry into the items. The model follows neither failure.
- Pool.LoadInitial: the load is modelled as happening before any event, not interleaved with a spin (see the previous line).
- JavaScript strings are UTF-16 code units. The model's `char` is a Unicode scalar value, so surrogate pairs are not modelled.
