# Anti-detect editor and Dynamic Island: state transitions in Dafny

This project models the pure state changes inside the event handlers of two
React components. Both components live in a writing tool that scores a text
for AI likeness and can then "obfuscate" it with invisible characters.

- `components/app.tsx` is the editor. It keeps tabs (documents) that carry a
  cached word count and an AI score. It has a "Request Anti Detect" transform
  that weaves zero-width marks into the text. It also has an AI-review panel,
  an AuraCrypt trial countdown with purchasable hours, and a licence-key list.
- `app/page.tsx` is the Dynamic Island widget. It has a four-digit passcode
  lock, a three-slide onboarding carousel, four mutually exclusive panels and
  three settings switches.

JavaScript strings are sequences of UTF-16 code units (`JsText.CodeUnit`).
This covers `trim`, `split(/\s+/)`, `replace(/\D/g, '')`, `slice` and `String(n)`.

`Math.random` is an explicit sequence of draws in `[0, 1)`, read in the order
the handler calls it:

- one draw per code unit;
- one more draw to choose the mark after a hit.

`Obfuscation.Offset(marks, i)` is the number of units and marks before unit
`i`. It is both the position of unit `i` in the output and the position of its
draw in the stream.

The network reply of the AI scorer is an input. `None` stands for a failed
request.

The model keeps these behaviours of the code:

- The score from the reply is stored as it is, without clamping to 0..100.
- A rename falls back to `"Tab <key>"` only for the empty string. A title of
  blanks is kept.
- Updating the content of a key that no tab has changes nothing.
- Confirming the removal of the last tab resets the active key to `"1"`.
- New tab keys are `String(tabs.length + 1)`, not a monotonic counter. The
  tab bar's "add" uses this key choice too. `TabStore.TabsEditFresh` is the
  tab bar with the corrected add. See Findings.
- The "Close Tab" item of the tab context menu calls the removal directly,
  without the last-tab guard, so it can close the only tab.

Modules: `Wrappers` (Option), `JsText` (strings), `TabStore` (tab list),
`Obfuscation` (anti-detect pass), `Review` (score round trip), `Subscription`
(trial and licences), `Island` (the widget).

## Model

| member | source | states |
|---|---|---|
| JsText.Trim | components/app.tsx:620 | `trim()` returns a slice of the input. Only white space was cut off either end, and the result neither starts nor ends with white space. |
| JsText.SplitOnSpaceRuns | components/app.tsx:620 | `split(/\s+/)` always yields at least one piece, and no piece contains white space. |
| JsText.SplitCountsWords | components/app.tsx:620 | On a text with no white space at either end, the split yields exactly one piece per word. A word is a maximal run of non-space units. |
| JsText.WordsOfTrim | components/app.tsx:620 | Trimming does not change the number of words. |
| JsText.WordCount | components/app.tsx:620 | `trim().split(/\s+/).length` is at least 1, and exactly 1 for an empty or blank text. |
| JsText.WordCountIsWords | components/app.tsx:620 | The cached word count `trim().split(/\s+/).length` is the number of words. An empty or blank text counts as 1. |
| JsText.KeepDigits | app/page.tsx:322 | `replace(/\D/g, '')` returns only digits and is never longer than its input. |
| JsText.Take | app/page.tsx:322 | `slice(0, n)` is the prefix of length n, or the whole string when it is shorter. |
| JsText.KeepDigitsAppend | app/page.tsx:322 | `replace(/\D/g, '')` distributes over concatenation. |
| JsText.KeepDigitsOfDigits | app/page.tsx:322 | A string of digits passes the digit filter unchanged. |
| JsText.KeepDigitsDropsOthers | app/page.tsx:322 | No non-digit unit survives the digit filter. |
| JsText.DecimalString | components/app.tsx:756 | `String(n)` is a non-empty string of digits with no leading zero. |
| JsText.DecimalRoundTrip | components/app.tsx:756 | Reading `String(n)` back as a decimal numeral gives `n`. |
| JsText.DecimalInjective | components/app.tsx:756 | Distinct numbers give distinct keys. |
| TabStore.UpdateTabContent | components/app.tsx:618-622 | Only tabs with the key change. They get the new content and a word count equal to the number of words, or 1 when blank. Keys, titles, scores and order are untouched. |
| TabStore.AddTab | components/app.tsx:755-759 | The add as written appends exactly one tab. Its key is the numeral for length+1, with no leading zero. Its title is "New Tab " + key, its content is empty and its score and count are 0. That tab becomes active. |
| TabStore.AddTabFresh | components/app.tsx:755-759 | The corrected add appends the same kind of tab, with a key no existing tab has. It keeps keys distinct. |
| TabStore.AddTabFreshAgreesWithoutRemovals | components/app.tsx:755-759 | While the keys are still "1".."n", the corrected add equals the add as written. |
| TabStore.LastIndexOf | components/app.tsx:763-768 | The `forEach` ends on the last position carrying the key. It finds none exactly when no tab has the key. |
| TabStore.WithoutKey | components/app.tsx:769 | The filter keeps only tabs of the list without the key. It returns the list unchanged when no tab has the key. |
| TabStore.WithoutKeyOne | components/app.tsx:769 | On one tab, the filter drops it exactly when it has the key. |
| TabStore.WithoutKeyAppend | components/app.tsx:769 | The filter distributes over concatenation. With the one-tab case it fixes the result: the tabs without the key, in order. |
| TabStore.WithoutMiddle | components/app.tsx:769 | When only the middle tab has the key, the filter removes exactly that tab. |
| TabStore.WithoutUniqueKey | components/app.tsx:769 | With distinct keys, the filter removes exactly the tab at the target's position. |
| TabStore.RemoveTab | components/app.tsx:761-779 | The tabs become the filtered list. The active key is kept unless it was removed and tabs remain, and then it names a remaining tab. A throw happens only when the active tab is removed. |
| TabStore.RemovePresentTab | components/app.tsx:761-779 | With distinct keys, removing the tab at `i` never throws and removes exactly that tab. If it was active and others remain, the tab before it becomes active, or the next one when it was first. Otherwise the active key stays, even when the list is now empty. |
| TabStore.CloseOnlyTabDirectly | components/app.tsx:1367-1372 | The context menu's "Close Tab" calls the removal without the last-tab guard. On the only tab it succeeds and leaves no tabs, with the active key kept. |
| TabStore.RemoveAbsentTab | components/app.tsx:761-779 | Removing a key no tab has keeps the list. If that key was active, the first tab becomes active. |
| TabStore.TabTitleChange | components/app.tsx:785-790 | Only matching tabs change, and only their title. It becomes the new title, or "Tab " + key when the new title is empty. Title editing ends. |
| TabStore.TabTitleChangeIdempotent | components/app.tsx:785-790 | Renaming twice to the same title is the same as renaming once. |
| TabStore.TabsEdit | components/app.tsx:792-802 | "remove" removes only while more than one tab is open. Otherwise it just raises the confirmation flag. "add" is exactly the add as written, keyed length+1. |
| TabStore.TabsEditFresh | components/app.tsx:792-802 | The corrected tab bar: "add" is the corrected add, and "remove" is unchanged. |
| TabStore.ConfirmRemoveLastTab | components/app.tsx:804-808 | Confirming leaves no tabs, active key "1" and the dialog closed. |
| TabStore.CancelRemoveLastTab | components/app.tsx:810-812 | Cancelling only closes the dialog. With the guard it restores the state before the close was asked for (see LastTabGuard). |
| TabStore.LastTabGuard | components/app.tsx:792-812 | Closing the only tab leaves the list alone and raises the confirmation. Cancelling then restores the earlier state, and confirming leaves no tabs. |
| TabStore.TabsEditFreshKeepsKeysDistinct | components/app.tsx:755-802 | With distinct keys and the corrected add, every tab-bar action succeeds and keeps keys distinct. |
| TabStore.DistinctKeysWithout | components/app.tsx:769 | Taking one tab out keeps the other keys distinct. |
| TabStore.EditsKeepKeysDistinct | components/app.tsx:618-622 | Content updates, renames and the confirmed close keep keys distinct. |
| TabStore.AddTabCollision | components/app.tsx:755-779 | From tabs "1","2","3" with "3" active: closing "1" and then adding as written gives two tabs keyed "3". Closing "3" then throws. The tab bar's "add" repeats the key the same way. The corrected add picks "4". |
| TabStore.AddAfterGap | components/app.tsx:755-779 | From any store whose tabs are "2","3": adding as written repeats key "3", a later close of "3" throws, and the corrected add picks "4". |
| Obfuscation.PickIndex | components/app.tsx:726 | `Math.floor(r * length)` with `r` in [0,1) is a valid index into the alphabet. |
| Obfuscation.FirstDecision | components/app.tsx:723-729 | The first unit gets a mark exactly when its draw is below 0.1. The mark is the alphabet entry the next draw picks, and the unit consumes one draw plus one more per mark. |
| Obfuscation.Decide | components/app.tsx:723-729 | The random choices of the pass: one decision per unit. DecideExplained states which. |
| Obfuscation.DecideExplained | components/app.tsx:721-739 | Unit `i` gets a mark exactly when the draw at its offset is below 0.1. The mark is the alphabet entry chosen by the following draw. |
| Obfuscation.WeavePlaced | components/app.tsx:723-738 | In the joined output, unit `i` sits at its offset and its mark, if any, right after it. |
| Obfuscation.Weave | components/app.tsx:723-738 | The output is the text's length plus one unit per mark. |
| Obfuscation.ObfuscateShape | components/app.tsx:721-739 | The first unit is at 0, and the output ends right after the last unit and its mark. Each unit keeps its place and order. A mark from the mode's alphabet follows unit `i` exactly when its draw is below 0.1. |
| Obfuscation.Obfuscate | components/app.tsx:717-748 | newLength = oldLength + replacedCount, and replacedCount ≤ oldLength. An empty text gives an empty output with count 0. |
| Obfuscation.EveryDrawHits | components/app.tsx:724-726 | When every draw is below 0.1, every unit is marked and the output is twice as long. |
| Obfuscation.NoDrawHits | components/app.tsx:724-726 | When no draw is below 0.1, the text comes back unchanged with count 0. |
| Obfuscation.StripWeave | components/app.tsx:723-738 | Stripping the alphabet from the woven output gives back a text that has none of its units. |
| Obfuscation.ObfuscateRestores | components/app.tsx:721-739 | When the text holds no unit of the mode's alphabet, removing those units from the output restores the text. A text that already holds one, such as an emoji sequence joined with U+200D, is not restored. |
| Obfuscation.WeaveAppend | components/app.tsx:723-738 | The map-and-join works unit by unit: weaving two parts is weaving each. |
| Obfuscation.InjectMarks | components/app.tsx:721-739 | The loop with its running cursor into the draws and running count computes exactly the pass. |
| Obfuscation.RequestAntiDetect | components/app.tsx:710-753 | The handler writes the pass's output into the active tab and reports the pass's own statistics, so newLength = oldLength + replacedCount. |
| Review.FindIndex | components/app.tsx:633 | `findIndex` returns the first entry with the name, or none when no entry has it. |
| Review.Upsert | components/app.tsx:632-641 | An entry with the same name is replaced in place and the length stays. Otherwise the entry is appended. |
| Review.UpsertFindsNew | components/app.tsx:632-641 | After the upsert, the name looks up to the new entry. |
| Review.UpsertKeepsOthers | components/app.tsx:632-641 | Every other name looks up to what it did before. |
| Review.UpsertKeepsNamesUnique | components/app.tsx:632-641 | Names unique before the upsert stay unique. |
| Review.FailedRequestChangesNothing | components/app.tsx:624-660 | A request that fails after the loading flag was set changes nothing except the file's loading flag, which ends false even if it was unset before. |
| Review.StartScoring | components/app.tsx:626 | Before the request only the file's loading flag is raised. A failed request then sets that flag to false and changes nothing else (see FailedRequestChangesNothing). |
| Review.SetScore | components/app.tsx:643-645 | Only tabs with the key change, and only their score. |
| Review.FinishScoring | components/app.tsx:624-660 | A failed request only clears the loading flag. On success, the unclamped score goes into the map, and the panel is the upsert of the new entry: replaced in place or appended. It is written onto the tab with the captured active key, not looked up by file name, and the panel is shown. |
| Review.LastResponseWins | components/app.tsx:624-660 | A second response for the same file overwrites the first, without growing the panel. |
| Subscription.Tick | components/app.tsx:592-616 | A running trial loses one second. At one second or less it ends, with AuraCrypt off and the time at 0. Without a running interval nothing changes. |
| Subscription.TrialRunsOut | components/app.tsx:592-616 | A running trial stays active for exactly `timeLeft` ticks, then ends and stays ended. |
| Subscription.PurchaseTime | components/app.tsx:1002-1007 | Buying adds 3600 seconds per hour and leaves the active and AuraCrypt flags as they were. |
| Subscription.PurchaseDoesNotRestart | components/app.tsx:1002-1007 | Buying hours adds 3600 seconds per hour but does not restart an expired trial. |
| Subscription.Countdown | components/app.tsx:1126 | The h/m/s display adds back up to the seconds, with minutes and seconds below 60. |
| Subscription.CountdownInjective | components/app.tsx:1126 | Different second counts show differently. |
| Subscription.SubmitLicenseKey | components/app.tsx:915-922 | A blank input changes nothing. Otherwise the trimmed input is appended as an active key and the input and dialog are cleared. |
| Island.SanitizePasscode | app/page.tsx:322 | The entry is at most four units, all digits, and is the first four digits of the input in order. |
| Island.SanitizeIdempotent | app/page.tsx:322 | Sanitising twice is sanitising once. |
| Island.SanitizeIgnoresNonDigits | app/page.tsx:322 | Non-digits typed anywhere are ignored. |
| Island.SanitizeKeepsFirstFour | app/page.tsx:322 | Once four digits are in, further typing changes nothing. |
| Island.ClearEntryTimer | app/page.tsx:330 | The delayed clear empties the entry and retires one pending timer. After a wrong entry, the state is as before the attempt except that the entry is empty (see WrongEntryThenTimer). |
| Island.PasscodeEntry | app/page.tsx:321-334 | While locked, a four-digit entry equal to the passcode unlocks and empties the entry. A wrong one stays shown and schedules a clear. Unlocked, the entry is only stored. The passcode never changes. |
| Island.WrongEntryThenTimer | app/page.tsx:324-333 | A wrong complete entry keeps the island locked. When its timer fires, the state is as before the attempt except that the entry is empty, whatever was typed before. |
| Island.SetPasscode | app/page.tsx:336-344 | Only a four-unit entry becomes the passcode, ends setup and shows the welcome screen. Otherwise nothing changes. |
| Island.Lock | app/page.tsx:315-319 | Locking locks, expands and empties the entry, and keeps the passcode, so set-then-lock can be unlocked (see SetLockUnlock). |
| Island.PasscodeStepsKeepEntryWellFormed | app/page.tsx:315-344 | Every passcode step keeps the entry to at most four digits. |
| Island.SetLockUnlock | app/page.tsx:315-344 | After set-then-lock, typing the same digits unlocks with an empty entry. Any other input stays locked. |
| Island.JsRemainder | app/page.tsx:347 | JavaScript's `%` is the remainder of truncating division and takes the sign of the dividend. |
| Island.NextSlide | app/page.tsx:346-348 | Next stays within the three slides and moves one on, wrapping from the last to the first. |
| Island.PrevSlide | app/page.tsx:350-352 | Prev stays within the three slides and moves one back, wrapping from the first to the last. |
| Island.SlidesInverse | app/page.tsx:346-352 | Prev undoes next, and next undoes prev. |
| Island.PanelClick | app/page.tsx:288-388 | All four click handlers behave the same way: timezone, scanning and settings (lines 288-313) and the clock (lines 381-388). The clicked panel flips, the other three close and the island expands, so at most one panel is open. Nothing else changes. |
| Island.PanelClickTwiceCloses | app/page.tsx:288-388 | For any of the four click handlers (lines 288-313 and 381-388), clicking a closed panel twice leaves every panel closed. |
| Island.ToggleSetting | app/page.tsx:377-379 | Exactly the named switch flips. |
| Island.ToggleSettingTwice | app/page.tsx:377-379 | Toggling twice restores the settings. |

## Left out

- Rendering, animation, the Monaco editor instance and its absence check (`editorRef.current`). The anti-detect pass takes the editor's text as a parameter.
- The `setTimeout` and `setInterval` scheduling, the loading spinner and `message` pop-ups. The trial tick and the passcode clear are separate steps.
- `localStorage` reads and writes, the axios request, confetti, speech recognition, file upload and clipboard: browser I/O. The file upload (components/app.tsx:878) reuses the `length + 1` key choice and is not modelled.
- `handleEditTab` and the hidden-tab list only set UI flags. The context menu's "Hide Tab" only hides. Its "Close Tab" is the plain removal, `TabStore.RemoveTab`.
- The AuraCrypt alphabet (components/app.tsx:722): it is a parameter, any non-empty sequence of code units, not the literal's exact units.
- Obfuscation.Obfuscate: it needs at least two draws per unit, so that a run of hits cannot exhaust the stream. Draws are reals in [0,1), not IEEE doubles.
- Obfuscation.InjectMarks: it has the same draw requirement as `Obfuscate`.
- `Review.FinishScoring`: `parseInt` of a non-numeric reply (NaN) is not modelled. The score is any integer.
- `Subscription.Tick`: the trial's expiration timestamp and the `Date.now()` it is stored with are not modelled.
- The high-score warning dialog (score ≥ 80) is only a message.

## Findings

| source | as written | input that shows it | evidently intended | confidence | as-written member | corrected member |
|---|---|---|---|---|---|---|
| components/app.tsx:756 | The new tab's key is `String(tabs.length + 1)`, which can equal a key still in use after a tab was closed. | Tabs "1","2","3" with "3" active. Close "1", then add: the keys become "2","3","3". Closing "3": the last tab keyed "3" is at position 2, so `lastIndex` is 1. The filter removes both tabs keyed "3" and leaves `newTabs` with one tab. `newTabs[1]` is undefined, so reading its `key` throws a TypeError. | Every new tab gets a key no open tab has. | not executed | TabStore.AddTabCollision | TabStore.TabsEditFresh |
