# Todo list data layer in Dafny

This project models the data layer of a single-page todo application (`script.js`) and proves properties of it. The model covers:

- **The store.** Class `TodoApp` keeps a list of todo records, a status filter (all / pending / completed) and an optional priority filter. It adds, toggles, edits and deletes records, clears the completed records or the whole list, and loads the list from storage.
- **The queries.** These are the list page's status and priority filter, the dropdown's date-range filter, the case-insensitive search of the navigation bar, and the display order used by `render`.
- **The statistics page.** It shows counters, a rounded progress percentage, a per-priority breakdown and an activity timeline. It also shows the current streak of days with a completion, the best week and the average per day.
- **The two modal dialogs.** They replace `confirm` and `prompt`, and each resolves a promise at most once.
- **The payment form's input masks.**

How the model represents the source:

- **Records.** A todo record is the datatype `Todos.Todo`.
- **Timestamps** are integer milliseconds of local wall-clock time. A local calendar day is `ts / 86_400_000`.
- **The store** is a Dafny `class` with the list and the two filters. These are three of the source's four fields; `editingId` is never read and is not modelled. Its methods state the new contents of those fields.
- **Pure code** becomes functions: filters, sorts, counts and masks. Each one returns a new sequence or value, as the JavaScript does.
- **Loops** from `calculateStreak` and `calculateBestWeek` become methods with `while`/`for` loops. Each loop is proved against a specification function.
- **The environment** becomes parameters:
  - the current time is `now`;
  - the result of `generateId` is `freshId`;
  - the value a dialog resolved with is `confirmed` (confirm dialog) or `answer` (edit dialog);
  - the stored string and `JSON.parse` are `saved` and a `parse` function.
- **The dialogs resolve with a value.** The store methods take the dialog's result as an argument and apply it to the list as it is at that moment. The overlay blocks the page's buttons while a dialog is open, but not the keyboard (see "## Left out").
- **JavaScript semantics written out:**
  - `trim` strips the ECMAScript white-space and line-terminator set;
  - `length` counts UTF-16 code units;
  - `Array.prototype.sort` is stable, written here as an insertion sort;
  - `find` returns the first match;
  - `filter` keeps order and keeps exactly the matches.

## Model

| member | source | states |
|---|---|---|
| Text.Trim | script.js:59 | `trim`: the result has no whitespace at either end, and it is empty exactly when the input is blank |
| Text.TrimIsSlice | script.js:59 | `trim` returns a slice of the input, and everything it cuts off on either side is whitespace |
| Text.TrimIdempotent | script.js:126-127 | trimming a trimmed text changes nothing |
| Text.ToLower | script.js:500 | `toLowerCase`: the same length, character by character, no upper-case letter left |
| Text.IncludesIffOccurs | script.js:525 | `includes(q)` holds exactly when `q` occurs as a contiguous slice |
| Text.Utf16Length | script.js:1520 | `value.length` is the number of characters plus the number of supplementary (non-BMP) characters: between the number of characters and twice that, and equal to it for all-BMP text |
| Todos.FindIndex | script.js:85 | `find(t => t.id === id)`: none exactly when no record has the id; otherwise the first index holding it |
| Todos.StartOfDay | script.js:747 | `setHours(0, 0, 0, 0)` gives the midnight that starts the day: a whole number of days, on the same day, at or before the time |
| Todos.EndOfDay | script.js:752-753 | `setHours(23, 59, 59, 999)` gives the last millisecond of the day: one millisecond before the next midnight, on the same day, at or after the time |
| Todos.TidyTextIsTrimmed | script.js:59-72 | a stored text (non-empty, no whitespace at either end) is exactly a non-empty text that `trim` leaves unchanged |
| Sequences.Count | script.js:178 | `filter(p).length` is at most the length, is 0 exactly when nothing passes, and is the full length exactly when everything passes |
| Sequences.SortBySorted | script.js:320-331 | the stable sort's result is ordered for any comparator that is a total preorder |
| Sequences.SortByStable | script.js:320-331 | the sort is stable: the elements the comparator ranks equal appear in the result in their input order |
| Sequences.SortByIdempotent | script.js:320-331 | sorting an already ordered list gives it back unchanged |
| Sequences.CountSortBy | script.js:1081 | sorting changes no count of any kind of element |
| Sequences.SortedPrefixDominates | script.js:1055-1057 | after sorting, every element of the slice `slice(0, n)` may precede every element after it |
| Sequences.SubsequenceTransitive | script.js:159-175 | filtering a filtered list still keeps a subsequence of the original |
| Query.Select | script.js:163-171 | `filter`: keeps exactly the matching records, never more than the input, all of them exactly when all match |
| Query.SelectCountsMatches | script.js:178 | the length of a filtered list is the count of the records that match |
| Query.SelectIsSubsequence | script.js:110 | a filter keeps the stored order |
| Query.SelectCommutes | script.js:163-172 | the status filter and the priority filter can be applied in either order |
| Query.PendingAndCompletedSplit | script.js:188-190 | the pending and the completed records together are the whole list, as multisets and in number |
| Query.SelectKeepsUniqueIds | script.js:110 | filtering keeps ids unique |
| Query.GetFilteredTodos | script.js:159-175 | `getFilteredTodos`: a subsequence of the list, holding exactly the records that pass the status and the priority filter |
| Query.StatusViewsPartition | script.js:159-175 | with one priority filter, the pending and the completed view split the 'all' view: as multisets, in number, and with no record in both |
| Query.NextPriorityFilter | script.js:146-151 | `setPriorityFilter`: the filter is cleared exactly when the chosen priority was active, and is otherwise the chosen one |
| Query.PriorityFilterTwice | script.js:146-151 | choosing the same priority twice restores "no filter", unless that priority was active to begin with |
| Query.DateMatchesIffDayWithin | script.js:745-764 | `DateMatches`, the midnight / end-of-day comparisons, accepts exactly the creation days within the inclusive day range |
| Query.DropdownFilter | script.js:725-766 | `applyDropdownFilters`: a subsequence of the list holding exactly the records that pass the status and the priority filter and whose creation day is in the range |
| Query.NavSearch | script.js:499-526 | the search: nothing for a blank query; otherwise the records whose lower-cased text contains the trimmed, lower-cased query, in stored order |
| Query.NavSearchIgnoresCase | script.js:500 | typing the query in lower case finds the same records |
| Query.DisplayLeIsShownBefore | script.js:320-331 | the comparator (`Compare`, with the priority `Rank` of script.js:325) allows `a` before `b` exactly when `a` is pending and `b` completed, or both agree and `a` has the higher priority, or both agree and `a` is newer |
| Query.DisplayLeIsTotalPreorder | script.js:320-331 | the comparator is total and transitive, so the sort is well defined |
| Query.SortForDisplay | script.js:320-331 | the sorted list is a permutation of the filtered list, and every record is shown before each later one |
| Query.SortForDisplayIdempotent | script.js:320-331 | sorting the displayed list again changes nothing |
| Query.DisplayExample | script.js:320-331 | stored as [completed low, pending medium, pending high], the list is shown as [high, medium, completed] |
| Store.LoadTodos | script.js:400-408 | `loadTodos`: a missing entry, the empty string and an entry that does not parse give the empty list; otherwise the parsed list |
| Store.LoadTodosValid | script.js:400-408 | the loaded list is valid whenever what the parser reads is; every other outcome is the empty list |
| Store.TodoApp.constructor | script.js:2-5 | the store starts with the loaded list, filter 'all' and no priority filter, and is valid whenever what the parser reads is |
| Store.TodoApp.AddTodo | script.js:58-81 | a blank input changes nothing; otherwise the new record built by `NewTodo` (script.js:62-69) goes in front: pending, no completion time, the trimmed text. Then the list is valid if it was valid before |
| Store.Toggle | script.js:86-87 | one toggle flips `completed`, stamps `completedAt` with `now` or clears it, and changes nothing else |
| Store.ToggleTwice | script.js:86-87 | toggling twice restores `completed`; a pending well-formed record comes back unchanged |
| Store.ToggledAt | script.js:84-98 | only the first record with the id changes, only in its completion fields; an unknown id changes nothing |
| Store.ToggledAtValid | script.js:84-98 | toggling keeps ids unique, stamps consistent and texts tidy |
| Store.ToggledAtTwice | script.js:84-98 | toggling the same id twice restores every `completed` value, and restores the whole list when that record was pending and the list valid |
| Store.TodoApp.ToggleTodo | script.js:84-98 | the new list is `ToggledAt` of the old one, and the filters do not change |
| Store.EditedAt | script.js:121-136 | with a non-blank answer the first record with the id gets the trimmed answer as its text, and nothing else changes; a null or blank answer or an unknown id changes nothing |
| Store.EditedAtValid | script.js:126-127 | editing keeps the list valid |
| Store.TodoApp.EditTodo | script.js:121-136 | the dialog is opened exactly when the id is present; the new list is `EditedAt` of the old one |
| Store.DeleteRemovesOne | script.js:110 | with unique ids, deleting a present id removes exactly one record |
| Store.TodoApp.DeleteTodo | script.js:100-119 | the dialog is opened exactly when the id is present; once confirmed, every record with that id is removed and the others keep their order; otherwise nothing changes |
| Store.TodoApp.SetFilter | script.js:138-144 | sets the status filter and nothing else |
| Store.TodoApp.SetPriorityFilter | script.js:146-157 | the priority filter becomes `NextPriorityFilter` of the old one and nothing else changes |
| Store.TodoApp.ClearCompleted | script.js:177-199 | with nothing completed it returns before asking; a declined dialog changes nothing; once confirmed exactly the pending records stay, and the list shrinks by the completed count |
| Store.TodoApp.ClearAll | script.js:201-222 | with an empty list it returns before asking; a declined dialog changes nothing; once confirmed the list is empty and the count removed is its old length |
| Store.TodoApp.Render | script.js:306-340 | the shown list holds exactly the filtered records, each as often as stored, in display order |
| Store.TodoApp.UpdateStats | script.js:224-231 | total is the length, completed the number of completed records, and pending, computed as total minus completed, is the number of pending records |
| Statistics.Percentage | script.js:1028 | `Math.round(c / t * 100)` rounds half up. It is 0 without records and between 0 and 100. It is 0 exactly when 200c < t, and 100 when every record is completed |
| Statistics.Summarize | script.js:1014-1037 | the overview counters: pending plus completed is the total, the three priority counters add up to the total, and the progress is `Percentage(completed, total)`, so it lies between 0 and 100 |
| Statistics.PrioritySplit | script.js:1033-1035 | every record has exactly one of the three priorities |
| Statistics.TopCompletedFacts | script.js:1055-1058 | `TopCompleted`: the timeline takes min(5, n) completed records, each at most as often as it occurs, newest first, and none left out was completed later than one taken |
| Statistics.TopCreatedFacts | script.js:1068-1071 | `TopCreated`: the timeline takes min(3, n) pending records, each at most as often as it occurs, newest first, and none left out is newer than one taken |
| Statistics.TimelineFacts | script.js:1048-1082 | `ActivityTimeline`: the timeline holds exactly the collected entries: min(5, ·) completions and min(3, ·) creations, newest first. At most 8 entries exist, so the cut to eight drops none. It is empty exactly when there is neither a completed record with a time nor a pending record |
| Insights.HasTimeIsCompletionCriterion | script.js:1120 | the insights' filter `t.completed && t.completedAt` is the same criterion as the timeline's at script.js:1055 |
| Insights.CompletionsUpToDrops | script.js:1152-1165 | a day with a completion lowers the number of completions counted up to it, so counting back terminates |
| Insights.CalculateStreak | script.js:1119-1168 | the result is the exact number of consecutive days with a completion, counted back from today, or from yesterday when nothing was completed today. It is 0 exactly when nothing was completed on either day, and it never exceeds the number of completions |
| Insights.CountBack | script.js:1152-1165 | the `while` loop: counts back exactly over the days that had a completion |
| Insights.WeekStartFacts | script.js:1177-1182 | `WeekStart`: the week key is the Sunday on or before the day, less than seven days earlier |
| Insights.TallyWeeks | script.js:1176-1184 | afterwards each week key holds that week's number of completions, every key is listed exactly once, and the counts over the listed keys add up to the number of completions |
| Insights.MaxCount | script.js:1186 | `Math.max` over the values: at least each value, and equal to one of them |
| Insights.CalculateBestWeek | script.js:1170-1187 | the greatest number of completions in any one week: 0 exactly when there are none, otherwise reached by some week and no more than all completions |
| Insights.OldestCompletion | script.js:1193 | `Math.min` over the completion times: reached, and at most each of them |
| Insights.CeilDiv | script.js:1195 | `Math.ceil(a / b)` is the least integer q with a <= q * b |
| Insights.AveragePerDay | script.js:1189-1198 | the average's numerator is the number of completions. Its denominator is the number of days since the oldest completion, rounded up and at least 1 |
| Dialogs.ConfirmStep | script.js:1455-1477 | the open confirm dialog resolves with the first deciding event: cancel, Escape or the overlay give false, OK or Enter on OK give true. A resolved dialog ignores everything |
| Dialogs.ConfirmResolvedIsFinal | script.js:1479-1486 | after `cleanup` no event changes the result |
| Dialogs.ConfirmFirstDecisionWins | script.js:1455-1492 | the promise resolves with `b` exactly when some event decides `b` and no earlier event decided anything |
| Dialogs.ConfirmDialog.Handle | script.js:1455-1477 | one event moves the dialog by `ConfirmStep` |
| Dialogs.Save | script.js:1549-1554 | `handleSave` resolves with the untrimmed value exactly when it is non-blank and at most 200 code units long; otherwise nothing happens |
| Dialogs.EditClosedIsFinal | script.js:1571-1579 | a resolved edit dialog ignores every later event |
| Dialogs.EditAnswerIsAcceptable | script.js:1544-1569 | a saved answer passed `handleSave`'s test and is a text the field held: the initial text or the value of an `input` event |
| Dialogs.DisabledSaveWouldReject | script.js:1533 | `SaveDisabled`, the disabled save button, never blocks a value `handleSave` would accept |
| Dialogs.DisabledCounterIsDanger | script.js:1526-1533 | the counter (`Level`: danger above 180, warning above 150) and the save button agree: a non-empty value whose save button is disabled shows the danger counter |
| Dialogs.EditStepFacts | script.js:1544-1569 | one `EditStep` of the open dialog either saves the field's value, which is then acceptable, or keeps the value, or takes the value of an `input` event |
| Dialogs.EditDialog.Handle | script.js:1544-1569 | one event moves the edit dialog by `EditStep` |
| PaymentMasks.DigitsOnly | script.js:1316-1318 | `replace(/[^0-9]/g, '')` leaves only digits, and leaves a digit string as it is |
| PaymentMasks.DigitsOnlyKeepsEveryDigit | script.js:1316-1318 | the result is a subsequence of the input with as many characters as the input has digits: every digit is kept, in order, and nothing else |
| PaymentMasks.FormatCvvFacts | script.js:1316-1318 | the CVV mask keeps every digit in order and nothing else, and masking twice changes nothing |
| PaymentMasks.GroupDigitsRoundTrip | script.js:1298 | removing the spaces from the grouped digits gives the digits back |
| PaymentMasks.GroupDigitsShape | script.js:1298 | in a grouped number the spaces are exactly every fifth character, the text ends with a digit, and its length is the digit count plus one space fewer than groups |
| PaymentMasks.FormatCardNumberFacts | script.js:1296-1300 | the card number mask keeps exactly the digits, puts a space at every fifth place, ends with a digit, and masking twice changes nothing |
| PaymentMasks.FormatExpiry | script.js:1305-1311 | fewer than two digits are kept as they are; otherwise `MM/` followed by at most two more digits, up to four digits in all |
| PaymentMasks.FormatExpiryIdempotent | script.js:1305-1311 | masking the expiry twice changes nothing |
| PaymentMasks.FormatZip | script.js:1323-1325 | the postal code is the first min(5, n) digits of the input |
| PaymentMasks.FormatZipIdempotent | script.js:1323-1325 | masking the postal code twice changes nothing |

## Left out

- Rendering and the DOM are left out: HTML templates, CSS classes, `escapeHtml`, focus handling and notifications. They are presentation.
- `saveTodos` and `localStorage` writes are left out. Persistence is I/O, and the model states the list the store would write.
- The list a stored entry parses to is a parameter. A stored value that parses to something other than a list of well-formed records is not modelled.
- `generateId` uses `Date.now()` and `Math.random()`. A fresh id is a parameter instead, and `AddTodo` requires it not to be in the list.
- Time zones and daylight saving time are left out. Days are fixed 24-hour blocks of local time. The `toISOString` week key is represented by the local Sunday's day number. Date-input strings, which `new Date` reads as UTC midnight, are taken as local timestamps.
- `formatDate`, `formatTimeAgo` and `getPriorityText` are left out. They only produce display text.
- The quick date buttons, the kept-open state of the filter dropdown and the payment submission and premium flag are left out. They are UI flow outside the data layer.
- Statistics.Percentage: the rounding is exact-rational rounding half up. It does not model the floating-point error of `c / t * 100` at exact halves.
- Insights.AveragePerDay: the final floating-point division and `toFixed(1)` are not modelled. The result is the numerator and denominator of that division.
- Text.ToLower lower-cases ASCII and Latin-1 letters only. Other scripts' case mappings are not modelled.
- A priority other than high, medium and low cannot occur in the model. The source would give such a record `undefined` in the comparator.
- `addTodo` also resets the text field and the priority selector. That is UI state and is not modelled.
- The dialogs' title, message and button label (`Löschen` / `Bestätigen`) are left out. The 100 ms focus timers are left out too.
- The promise scheduling between a dialog's handler and the store's `.then` is not modelled.
- Keyboard use behind an open dialog is not modelled. The overlay stops pointer clicks on the page, but not the keyboard. Tab can move the focus to any page control behind it, such as the delete, clear-completed, clear-all and toggle controls. Activating one of these then runs its operation, or opens a second dialog on the same modal elements, while the first is still open. The model assumes each dialog resolves before another store operation starts. The one keyboard path the source offers on purpose is harmless: Ctrl+Enter focuses the new-todo field (script.js:1593-1595), and Enter there runs `addTodo` (script.js:31-33) behind an open confirm dialog. `addTodo` only adds a record, and deleting and clearing filter the list as it is at resolution, so the outcome equals running `AddTodo` first. The edit dialog takes Enter as save and suppresses that key press (script.js:1559-1561).
- Insights.TallyWeeks: does not state that `order` lists the keys in the order they were first added. `MaxCount` does not depend on that order.
- The edit dialog's counter text is `Utf16Length` of the value. It is not modelled as a separate member.
- A key press on a focused button arrives as a click on that button in the event alphabet of `Dialogs`. The browser's own activation behaviour is not modelled.
- `updateCardName`, the payment form's name auto-fill, is left out.
