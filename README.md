# A distraction-free writing page with a capped history, in Dafny

The application is a single writing page. It has a textarea, a fifteen-minute
countdown, font-size buttons and a history panel. The history panel lists up to
ten saved texts, each keyed by the millisecond timestamp of its save. The
history lives in two places:

- an IndexedDB object store keyed by timestamp. After every add, a
  descending cursor deletes everything past the tenth record;
- a JSON copy under one localStorage key, the "mirror". The hook reads the
  mirror back when the object store cannot be read.

This project models, as Dafny:

- `HistoryStore` (lib/db.ts, lines 35-138): the store and the four
  operations on it. The object store is a `map<int, string>` from timestamp
  to text. The mirror is `Absent`, `Unreadable` (present but not parseable
  JSON) or `Saved(entries)`. Whether the browser opens the database and runs
  the request is a parameter, `Host`:
  - `Healthy`;
  - `OpenFails`, where the open request fails;
  - `RequestFails`, where the add/delete/clear/getAll request fails.
  
  The class `BrowserStorage` holds both, and its methods update them in place.
  The eviction cursor is a loop over the keys in descending order. It is
  proved to leave exactly the ten newest records (`Retained`).
- `HistoryHook` (lib/db.ts, lines 140-210): the `useHistory` hook. The class
  `HistoryState` holds the list on screen and the loading flag, and it calls
  the store. Each call is proved to move the state `HistoryView` (the list,
  the store and the mirror) as a pure function describes (`AfterAdd`,
  `AfterDelete`, `AfterClear`). Lemmas about those functions cover a whole
  sequence of calls.
- `Text`: the JavaScript string and number behaviour the page relies on:
  - `String.prototype.trim`, with the ECMAScript white-space and
    line-terminator characters;
  - `Number.prototype.toString` on integers;
  - `%` with the sign of the dividend;
  - `padStart`;
  - the page's `formatTime`.
- `Editor` (app/page.tsx): the page state as the class `Home`, with one method
  per handler and effect. Its constants are 900 seconds, 18 px, the bounds
  12-32 and steps of 2.
- `Ordering` and `Wrappers`: helpers. These are the largest element of a
  set, the keys in descending order, and `Option`/`Result`/`Outcome`.

The model is sequential. Each handler, effect run or promise callback runs to
completion, and React state updates are applied at once, in program order.
The clock (`Date.now()`) is a parameter. So is whether the browser accepts a
localStorage write (`mirrorWritable`).

Behaviour worth noting:

- `store.add` fails on a timestamp that is already stored. Such a save is
  an error and changes nothing (`AddOutcome`).
- The in-memory list prepends a saved entry even when the eviction pass
  removes it from the store at once. That happens when ten newer timestamps
  are already stored. So the list and the store are not claimed to agree.
- `confirmDeleteEntry` tests the remembered timestamp for truth, so a
  remembered timestamp 0 is never deleted, although the dialog still closes.
- The two confirmation dialogs close themselves through `onOpenChange(false)`
  after their Cancel or action button runs, and on Escape
  (app/page.tsx:322, app/page.tsx:342). The model applies that close after the
  button's own handler.
- `formatTime` on a negative number gives a label such as `-1:-1`, because
  JavaScript's `%` keeps the sign and `Math.floor` rounds down. The model
  computes the same string (`TruncatedRemainder`), but the round-trip claims
  are for non-negative times only. The page never shows a negative time.

## Model

| member | source | states |
|---|---|---|
| Ordering.Min | app/page.tsx:150 | `Math.min`: the smaller of the two, and one of them |
| Ordering.Max | app/page.tsx:154 | `Math.max`: the larger of the two, and one of them |
| Ordering.Largest | lib/db.ts:46 | the largest key of a non-empty set, which is where a 'prev' cursor over the timestamp index starts |
| Ordering.DescKeys | lib/db.ts:46-57 | the order in which the 'prev' cursor visits the keys: every key once, strictly decreasing |
| Ordering.DistinctCard | lib/db.ts:46-57 | a strictly decreasing key list has no repeats, so its set has as many keys as the list |
| HistoryStore.HostError | lib/db.ts:17-19 | a failed open rejects with "Failed to open database", a failed request with that request's own message |
| HistoryStore.Retained | lib/db.ts:44-57 | the records the eviction pass keeps are a subset of those it started with |
| HistoryStore.RetainedSize | lib/db.ts:47-55 | after eviction the store holds min(n, 10) records |
| HistoryStore.RetainedAreNewest | lib/db.ts:45-55 | every kept record is newer than every evicted one |
| HistoryStore.RetainedWithinCapacity | lib/db.ts:53 | with at most ten records nothing is deleted |
| HistoryStore.OlderThanCapacityEvicted | lib/db.ts:52-55 | a record with ten newer records is deleted |
| HistoryStore.EvictsOnlyOldest | lib/db.ts:42-55 | with eleven records, exactly the oldest one is deleted |
| HistoryStore.FreshestSurvives | lib/db.ts:42-55 | a record newer than every other record is never evicted |
| HistoryStore.KeptByRank | lib/db.ts:52-54 | the key at cursor position j is kept exactly when j < 10 |
| HistoryStore.CursorStep | lib/db.ts:49-56 | one cursor step (count, maybe delete, continue) keeps the loop's invariant |
| HistoryStore.CursorDone | lib/db.ts:49-57 | when the cursor is exhausted, the store is exactly the ten newest records |
| HistoryStore.NewestFirst | lib/db.ts:124-129 | the sorted list has one entry per record |
| HistoryStore.NewestFirstSorted | lib/db.ts:124-131 | loadHistory's list holds every record once, in strictly decreasing timestamp order |
| HistoryStore.NewestFirstOrdered | lib/db.ts:129 | the comparator `b.timestamp - a.timestamp` puts the newest first |
| HistoryStore.NewestFirstRecords | lib/db.ts:124-127 | the list holds exactly the store's records |
| HistoryStore.NewestFirstUnique | lib/db.ts:124-131 | any newest-first list of the store's records is the loaded list, so the result does not depend on how the sort works |
| HistoryStore.CountAbove | lib/db.ts:124-131 | in a newest-first list, position i has exactly i newer records before it |
| HistoryStore.AddOutcome | lib/db.ts:35-68 | the save succeeds exactly when the database opens, the request runs and the timestamp is new; otherwise it rejects with "Failed to open database" or "Failed to save entry" |
| HistoryStore.BrowserStorage.SaveHistoryEntry | lib/db.ts:35-70 | a save that went through leaves exactly the ten newest of the old records plus the new one; a failed save changes nothing |
| HistoryStore.BrowserStorage.EvictBeyondCapacity | lib/db.ts:44-57 | the cursor loop (count, delete past ten, continue) leaves exactly `Retained(store, 10)` |
| HistoryStore.BrowserStorage.DeleteHistoryEntry | lib/db.ts:72-92 | a delete that went through removes that timestamp (if present) and nothing else; errors leave the store as it was |
| HistoryStore.BrowserStorage.ClearAllHistory | lib/db.ts:94-116 | a clear that went through empties the store and removes the mirror; errors change neither |
| HistoryStore.BrowserStorage.LoadHistory | lib/db.ts:118-138 | when the database can be read, the result is every record, newest first; otherwise the error "Failed to open database" or "Failed to load history" |
| HistoryStore.BrowserStorage.WriteMirror | lib/db.ts:176 | `localStorage.setItem` replaces the mirror when the browser accepts the write |
| HistoryHook.Prepended | lib/db.ts:172 | `[entry, ...prev.slice(0, 9)]`: the entry first, then the older list cut so the whole is at most ten long |
| HistoryHook.MirrorCopy | lib/db.ts:175 | the list written to the mirror is at most ten long |
| HistoryHook.MirrorCopyIsPrepended | lib/db.ts:172-176 | the mirror copy and the list on screen after a save are the same list |
| HistoryHook.PrependAllKeepsLatest | lib/db.ts:169-176 | after any run of saves, the list is the last ten saved entries, newest first, followed by the older list, cut to ten |
| HistoryHook.WithoutTimestamp | lib/db.ts:185 | the filter keeps exactly the entries with a different timestamp |
| HistoryHook.WithoutTimestampConcat | lib/db.ts:185 | the filter works piecewise, so the survivors keep their order |
| HistoryHook.WithoutAbsentTimestamp | lib/db.ts:185 | filtering out a timestamp no entry has changes nothing |
| HistoryHook.LoadedHistory | lib/db.ts:146-159 | the loaded records; when loading fails, a readable mirror's list; otherwise the old list |
| HistoryHook.AfterAdd | lib/db.ts:169-180 | a save that went through: store holds min(n+1, 10) records drawn from the old ones and the new one, list begins with the entry and continues with the old list, mirror holds the list if writable; a failed save changes nothing |
| HistoryHook.AfterDelete | lib/db.ts:182-196 | a delete that went through removes the timestamp from the store and from the list and nothing else, and the mirror holds the list if writable; a failed delete changes nothing |
| HistoryHook.AfterClear | lib/db.ts:198-207 | a clear that went through empties the list, the store and the mirror; a failed clear changes nothing |
| HistoryHook.CallsStayWithinCapacity | lib/db.ts:169-196 | over any sequence of adds, deletes and clears, neither the list nor the store ever exceeds ten entries |
| HistoryHook.MirrorStaysInStep | lib/db.ts:169-207 | while every mirror write is accepted, the mirror always holds the list on screen, or is absent while the list is empty |
| HistoryHook.RefusedWriteLeavesStaleMirror | lib/db.ts:174-179 | a refused mirror write after a successful save leaves the mirror out of step with the list |
| HistoryHook.HistoryState.LoadHistoryData | lib/db.ts:144-163 | loading ends with the flag cleared and the list equal to the store's records newest first, else a readable mirror's list, else unchanged |
| HistoryHook.HistoryState.AddEntry | lib/db.ts:169-180 | the hook's state moves as `AfterAdd` says |
| HistoryHook.HistoryState.DeleteEntry | lib/db.ts:182-196 | the state moves as `AfterDelete` says; the result is true exactly when both the delete and the mirror write went through |
| HistoryHook.HistoryState.ClearHistory | lib/db.ts:198-207 | the state moves as `AfterClear` says; the result is true exactly when the clear went through |
| Text.TrimStartShape | app/page.tsx:91 | `Text.TrimStart`: the leading part trimStart drops is white space, and what it leaves does not start with white space |
| Text.TrimEndShape | app/page.tsx:91 | `Text.TrimEnd`: the trailing part trimEnd drops is white space, and what it leaves does not end with white space |
| Text.Trim | app/page.tsx:91 | `text.trim()` is no longer than the text and neither starts nor ends with white space |
| Text.TrimEmptyIffBlank | app/page.tsx:103 | `text.trim()` is falsy exactly when every character of the text is white space in the ECMAScript sense (`Text.IsWhitespace`: the WhiteSpace and LineTerminator characters) |
| Text.DigitChar | app/page.tsx:132 | a value 0-9 gives a digit character |
| Text.NatToString | app/page.tsx:132 | toString of a non-negative integer is a non-empty run of digits without a leading zero |
| Text.IntToString | app/page.tsx:130-132 | toString of an integer: a minus sign exactly for negative numbers, otherwise digits that read back as the number |
| Text.ParseNatToString | app/page.tsx:132 | reading the digits back gives the number |
| Text.ParseLeadingZero | app/page.tsx:132 | the zero that padStart adds does not change the value |
| Text.TruncatedRemainder | app/page.tsx:131 | `seconds % 60` lies strictly between -60 and 60, agrees with the mathematical remainder for non-negative seconds, and is never positive for negative ones |
| Text.PadStart | app/page.tsx:132 | `padStart(2, "0")` keeps the string as its suffix, fills the front with the filler, and reaches the target length |
| Text.SecondsFieldDigits | app/page.tsx:131-132 | the seconds field is exactly two digits, reading back as seconds mod 60 |
| Text.FormatTime | app/page.tsx:129-133 | for non-negative seconds the label is the minutes without leading zeros, a colon and the two-digit seconds field; a negative time gives a label starting with a minus sign |
| Text.ParseTimeOfFields | app/page.tsx:132 | a minutes field, a colon and a two-digit seconds field read back as the seconds they stand for |
| Text.FormatTimeRoundTrip | app/page.tsx:129-133 | formatTime loses nothing: the label reads back as the number of seconds |
| Editor.IncreasedFontSize | app/page.tsx:149-151 | two larger, but never above 32 |
| Editor.DecreasedFontSize | app/page.tsx:153-155 | two smaller, but never below 12 |
| Editor.FontSizeStaysOk | app/page.tsx:149-159 | from the default 18, any sequence of increase, decrease and reset keeps the size even and within 12-32 |
| Editor.FontStepsUndo | app/page.tsx:149-155 | within the range, a step up and a step down undo each other |
| Editor.Countdown | app/page.tsx:179 | one tick takes a second off while time is left and never goes below zero |
| Editor.TicksReachZero | app/page.tsx:175-183 | from t seconds the countdown reads t - n after n ticks and stays at zero from the t-th tick on |
| Editor.AutosaveRunsAsWritten | app/page.tsx:185-193 | the effect as written, run once per render: each run adds at most one entry, and a blank text changes nothing |
| Editor.AutosaveRunsIntended | app/page.tsx:185-193 | one expiry adds at most one entry to the list |
| Editor.AutosaveRepeatsAsWritten | app/page.tsx:185-193 | as written, two renders after expiry save the same draft twice |
| Editor.Home.constructor | app/page.tsx:61-73 | the initial page: empty text, 900 seconds, stopped, 18 px, panels and dialogs closed, nothing to delete, a fresh hook that is loading an empty list |
| Editor.Home.EditText | app/page.tsx:221 | typing replaces the text |
| Editor.Home.ToggleTimer | app/page.tsx:81-83 | start/pause flips the running flag |
| Editor.Home.ResetTimer | app/page.tsx:85-88 | reset stops the timer and puts back fifteen minutes |
| Editor.Home.Tick | app/page.tsx:175-183 | the interval, armed only while running with time left, takes one second off; the countdown stays within 0-900 |
| Editor.Home.SaveCurrentText | app/page.tsx:90-100 | a non-blank text is saved with the current time, moving the history as `AfterAdd` says; a blank text changes nothing |
| Editor.Home.AutosaveOnExpiry | app/page.tsx:185-193 | one run of the effect: at zero seconds a non-blank text is saved as `AfterAdd` says; otherwise nothing changes |
| Editor.Home.StartNewSession | app/page.tsx:102-110 | with non-blank text, only the confirmation dialog opens; with blank text, the text is cleared and the timer reset |
| Editor.Home.ConfirmNewSession | app/page.tsx:112-117 | clears the text, resets the timer and closes the dialog |
| Editor.Home.LoadHistoryEntry | app/page.tsx:140-143 | the entry's text goes into the editor and the panel closes |
| Editor.Home.ToggleHistoryPanel | app/page.tsx:490 | the history button opens a closed panel and closes an open one |
| Editor.Home.IncreaseFontSize | app/page.tsx:149-151 | the size becomes `IncreasedFontSize` of the old one and stays within range |
| Editor.Home.DecreaseFontSize | app/page.tsx:153-155 | the size becomes `DecreasedFontSize` of the old one and stays within range |
| Editor.Home.ResetFontSize | app/page.tsx:157-159 | the size goes back to 18 |
| Editor.Home.HandleDeleteEntry | app/page.tsx:161-164 | remembers the timestamp and opens the delete dialog |
| Editor.Home.CancelDeleteEntry | app/page.tsx:342-351 | the Cancel button forgets the remembered timestamp and the dialog closes |
| Editor.Home.ConfirmDeleteEntry | app/page.tsx:166-173 | with a remembered non-zero timestamp, deletes it as `AfterDelete` says and forgets it; otherwise the history and the timestamp stay; the dialog closes either way |
| Editor.Home.DismissDeleteDialog | app/page.tsx:342 | Escape closes the delete dialog and keeps the remembered timestamp |
| Editor.Home.DismissNewSessionDialog | app/page.tsx:322-331 | Cancel or Escape closes the new-session dialog and leaves the text and the timer alone |
| Editor.Home.ConfirmClearHistory | app/page.tsx:305-313 | the clear dialog's action clears as `AfterClear` says and reports whether that went through |
| Editor.Home.TimerLabel | app/page.tsx:129-133 | the countdown label reads back as the seconds left |

## Left out

- Opening the database is not modelled as plumbing. This covers the upgrade handler that creates the store and its index (lib/db.ts:13-33), `db.close()`, and transactions that abort after a request succeeded. Whether the open and the request succeed is the `Host` parameter.
- Promises and the React scheduler are not modelled. Calls do not interleave, and the stale `history` closure in addEntry/deleteEntry is the same list as the updater's `prev`. Two saves in flight at once, which could leave the mirror one entry behind, are not modelled.
- The effect that loads the history on mount (lib/db.ts:165-167) is not modelled. The model does not decide when effects run, so `LoadHistoryData` is its own method. A page render is not modelled either.
- JSON serialisation of the mirror is not modelled. `Unreadable` stands for a stored value that `JSON.parse` rejects. A parse that succeeds but yields something other than a list of entries is not modelled.
- `localStorage.removeItem` throwing inside clearAllHistory is not modelled.
- `Date.now()` is a parameter. `Math.random` (placeholder text, random font), `toLocaleString` (formatDate), toasts, the fullscreen API, theme and font choice, and the clear-history dialog's open flag are not modelled. None of them affects the history or the timer.
- Numbers are integers. The model has no fractional seconds or font sizes and no IEEE-754 behaviour.
- Keyboard shortcuts (app/page.tsx:196-212) are not modelled separately, because they call `startNewSession` and `saveCurrentText`.
- Text.FormatTimeRoundTrip: only non-negative times are covered. A negative time gives a label such as `-1:-1` that does not read back, and the page never shows one.
- Editor.Home.AutosaveOnExpiry: models one run of the effect. How many runs React makes is the subject of the finding below.

## Findings

| source | as written | input that shows it | evidently intended | confidence | as-written member | corrected member |
|---|---|---|---|---|---|---|
| app/page.tsx:185-193 | the autosave effect depends on `addEntry`, which useHistory creates anew on every render, so the effect runs after every render; each save that goes through updates the list and renders the page again, so the draft is saved again and again while the countdown stays at zero | countdown at 0 with text "draft", two renders at times 1000 and 1001: the list becomes [draft@1001, draft@1000] | one save when the countdown reaches zero | not executed; follows from React's effect dependency rule | Editor.AutosaveRepeatsAsWritten (over Editor.AutosaveRunsAsWritten) | Editor.AutosaveRunsIntended |
