# ClipKeeper page agent in Dafny

ClipKeeper is a browser extension that bookmarks positions in videos on a
video page. This project models its page agent, part of `contentScript.js`, which runs inside
the page. The agent holds the session state: the current video id, the
in-memory bookmark list `currentVideoBookmarks` and the three cached player
elements. It also:

- answers the `NEW`, `PLAY`, `DELETE` and `DELETE_ALL` messages;
- adds a bookmark when the page button is clicked or Shift+A is pressed;
- keeps one progress-bar marker per rendered bookmark;
- formats times with `getTime`.

Modules, following the program's structure:

- `TimeFormat` models `getTime` (`utils.js`, copied verbatim into
  `contentScript.js`). `setSeconds` sets the seconds field of local time.
  So when the local offset from UTC is a whole number of minutes and does not
  change in the span covered, the output is the `HH:MM:SS` UTC time of day of
  trunc(t) seconds after the epoch (`GetTime`). `LocalGetTime` covers any
  constant offset.
- `Bookmarks` holds the bookmark record and the two list transformations the
  handlers apply:
  - the comparator sort of `[...list, new]` by time. JavaScript's `sort` is
    stable, so it is modelled as insertion sort;
  - the `filter` on `b.time !== t`.
- `Markers` gives a marker's element id `"remove" + time.toFixed(3)` as a
  value. It also models `getElementById`'s first-match removal.
- `Shortcut` is the guard of the Shift+A keydown listener.
- `PageAgent` holds `class Agent`, whose fields are:
  - the module-level variables of `contentScript.js`;
  - the part of the page and of `chrome.storage.sync` the agent touches: the
    stored list per video, whether the runtime is alive, which player
    elements exist, the number of bookmark buttons, the markers in document
    order, and the player's `currentTime`.

  There is one method per handler and helper. Each one states its whole new
  state, and each keeps the invariant `Valid()`. Under `Valid()`, every list
  held or stored is ascending by time, and there is at most one bookmark
  button.

Modelling choices:

- Times are `real`s: the exact value of the JavaScript number.
- Storage holds decoded lists. `JSON.stringify`/`JSON.parse` of a list of
  `{time, desc}` records is the identity on such lists.
- Each handler runs as one atomic step. The `await` on storage is modelled as
  a read of the `storage` field.
- A `TypeError` ends the handler. The effects before the throw remain, and
  nothing after it happens. Such an error comes from a missing player
  element, or from using `chrome.runtime` once the runtime is gone. With the
  runtime gone:
  - the add sends no badge (`contentScript.js:71`);
  - a probe that must create the button throws at `chrome.runtime.getURL`
    (`contentScript.js:88`), after the elements are cached and the list is
    emptied, and before the button, the markers and the result. So NEW gets
    no reply.
- "The runtime is gone" means `chrome.runtime` is missing. The
  `chrome.runtime.lastError` test in `fetchBookmarks` never fires, because
  `lastError` is only set inside an API callback and neither caller runs in
  one.
- With the runtime gone, the fetch gives the empty list. So an add replaces
  the video's stored list with the new entry alone.

Three behaviours of the code are easy to miss. The model follows the code:

- `NEW` does not clear `currentVideoBookmarks`. Only a successful probe
  replaces it (`contentScript.js:157-159`, `80-81`).
- `DELETE` removes every entry at the given time, not only the first
  (`contentScript.js:164`). It then removes just one marker with that time's
  id (`contentScript.js:31-35`). `PageAgent.DeleteSharedTime` shows this.
- After an add, the in-memory list is the list fetched before the add, not
  the list that was stored. A later `DELETE` then starts from that stale
  list. See "Findings". The model keeps the add as written
  (`PageAgent.Agent.AddNewBookmark`) next to the corrected add
  (`PageAgent.Agent.AddNewBookmarkSynced`). The keydown listener, like the
  page button, runs the add as written.

## Model

| member | source | states |
|---|---|---|
| TimeFormat.Trunc | utils.js:11 | `setSeconds` truncates toward zero: the result is within one second of `t`, at or below it for non-negative `t` and at or above it for negative `t` |
| TimeFormat.Pad2 | utils.js:12 | a number below 100 is written as two decimal digits whose value is the number (zero-padded) |
| TimeFormat.ClockString | utils.js:10-12 | for any whole second: 8 characters with ':' at 2 and 5 and digits elsewhere; the fields' values are the hours mod 24, minutes mod 60 and seconds mod 60 of that second |
| TimeFormat.ClockStringDenotes | utils.js:10-12 | for any whole second, the clock string is well formed and its value is that second mod 86400 |
| TimeFormat.GetTimeDenotesTimeOfDay | utils.js:9-13 | for a time in the four-digit-year range, `getTime` yields a well-formed clock string (hours < 24, minutes and seconds < 60) that denotes trunc(t) mod 86400 |
| TimeFormat.ClockStringOfFields | utils.js:12 | the second 3600h + 60m + s of a day is written as the zero-padded h, m and s joined by ':' |
| TimeFormat.ClockStringOfValue | utils.js:12 | every well-formed `HH:MM:SS` string is the output for the second it denotes: the formatter is onto one day's clock strings |
| TimeFormat.ClockWrapsDaily | utils.js:10-12 | two whole seconds 86400 apart format identically |
| TimeFormat.GetTimeWrapsDaily | utils.js:9-13 | a playback position and the position one day later get the same string |
| TimeFormat.FractionDiscarded | utils.js:11 | `getTime(t)` equals `getTime(trunc(t))` |
| TimeFormat.GetTimeOneHourOneMinuteOneSecond | utils.js:9-13 | 3661 and 3661.7 seconds both give "01:01:01" |
| TimeFormat.GetTimeEpoch | utils.js:9-13 | 0 gives "00:00:00" |
| TimeFormat.GetTimeTwentySeconds | utils.js:9-13 | 20 gives "00:00:20" |
| TimeFormat.GetTimeBeforeEpoch | utils.js:9-13 | -1 gives "23:59:59", the last second of the day before the epoch |
| TimeFormat.WholeMinuteOffsetIsUtc | utils.js:10-12 | with a constant local offset that is a whole number of minutes, `getTime` gives the UTC result |
| TimeFormat.LocalGetTimeShift | utils.js:10-12 | with any constant local offset, the output is a well-formed clock string for trunc(t) minus the offset's seconds-within-a-minute, mod 86400 |
| TimeFormat.MonroviaOffsetExample | utils.js:10-12 | with Monrovia's 1970 offset of -0:44:30, `getTime(0)` is "23:59:30" |
| Bookmarks.InsertionPoint | contentScript.js:64 | the place where the stable sort puts a new entry of time t: after every leading entry at or before t, before the first later one |
| Bookmarks.InsertAt | contentScript.js:64 | one insertion step puts the new entry at its insertion point, with the entries before and after it unchanged |
| Bookmarks.InsertPermutes | contentScript.js:64 | an insertion adds exactly the new entry (length + 1, multiset + {b}) |
| Bookmarks.InsertSorted | contentScript.js:64 | inserting into an ascending list keeps it ascending |
| Bookmarks.InsertStable | contentScript.js:64 | on an ascending list, an insertion keeps each time's entries in order and puts the new entry last among the entries of its time |
| Bookmarks.SortByTimePermutes | contentScript.js:64 | the sort by `a.time - b.time` is a permutation of its input: same length, same multiset |
| Bookmarks.SortByTimeSorted | contentScript.js:64 | the sort's result is ascending by time |
| Bookmarks.SortStable | contentScript.js:64 | the sort is stable: entries with equal times keep their relative order |
| Bookmarks.SortOfSorted | contentScript.js:64 | sorting an ascending list leaves it unchanged |
| Bookmarks.AddedListIsSort | contentScript.js:64 | the list an add stores is `[...fetched, new]` sorted by time |
| Bookmarks.AddedListSpec | contentScript.js:64 | the stored list has one more entry, is ascending, is a permutation of fetched plus the new entry, and keeps every time's entries in order with the new one last among equals |
| Bookmarks.AddedListOfSorted | contentScript.js:64 | adding to an ascending list inserts the new entry after all entries at or before its time and leaves the others unchanged |
| Bookmarks.Without | contentScript.js:164 | the filter keeps an entry if and only if its time differs from t; it never lengthens the list |
| Bookmarks.WithoutAppend | contentScript.js:164 | the filter distributes over concatenation, so kept entries stay in order |
| Bookmarks.WithoutCount | contentScript.js:164 | exactly the entries at time t are dropped: the lengths add up, no entry at t remains, and every other time's entries are unchanged |
| Bookmarks.WithoutAbsent | contentScript.js:164 | deleting a time that is absent, for instance from the empty list, changes nothing |
| Bookmarks.WithoutSorted | contentScript.js:164 | deleting keeps an ascending list ascending |
| Bookmarks.WithoutIdempotent | contentScript.js:164 | deleting the same time twice is the same as deleting it once |
| Bookmarks.AddBetweenExample | contentScript.js:61-65 | adding at 20 s to [10 "A", 30 "B"] stores [10 "A", new, 30 "B"] |
| Bookmarks.DeleteLastExample | contentScript.js:164 | deleting 30 s from [10 "A", 20, 30 "B"] gives [10 "A", 20] |
| Markers.Key | contentScript.js:24 | the marker id `"remove" + t.toFixed(3)`: its sign part is the sign of t, and its digits are \|t\| rounded to the nearest thousandth (a tie rounds up) |
| Markers.KeyConflatesNearbyTimes | contentScript.js:31-32 | 1 s and 1.0004 s share an id while 1 s and 1.001 s do not; 30 s has the id of "30.000" |
| Markers.KeysOf | contentScript.js:47-51 | one id per bookmark, in list order |
| Markers.FirstIndex | contentScript.js:32 | the position of the first marker with the id, the one `getElementById` finds |
| Markers.RemoveFirst | contentScript.js:30-36 | with no marker of that id, nothing changes; otherwise exactly the first such marker is removed and the rest keep their order |
| Markers.RemoveFirstCount | contentScript.js:30-36 | removal takes one copy of the id out of the multiset of markers; the count drops by one exactly when the id is present |
| Shortcut.LowerCase | contentScript.js:192 | `toLowerCase` keeps the length and lower-cases each letter A-Z |
| Shortcut.LowerCaseEquals | contentScript.js:192-193 | a tag lower-cases to a lower-case word exactly when it spells that word in any mix of cases |
| Shortcut.TriggersAddExactly | contentScript.js:190-197 | the shortcut fires if and only if shift is held, the key is "A", the target's tag is neither INPUT nor TEXTAREA in any case, and the target is not editable |
| Shortcut.TriggersOnPlainElement | contentScript.js:191-193 | Shift+A on a DIV fires; a lower-case "a", no shift, or an editable DIV does not |
| Shortcut.SuppressedInInput | contentScript.js:193 | Shift+A in an INPUT does not fire |
| Shortcut.SuppressedInTextArea | contentScript.js:193 | Shift+A in a TextArea does not fire |
| Shortcut.LowerCaseTextArea | contentScript.js:192 | "TextArea" lower-cases to "textarea" |
| PageAgent.StoreSorted | contentScript.js:63-65 | storing an ascending list under one key keeps every stored list ascending |
| PageAgent.SortedFetch | contentScript.js:61-64 | when every stored list is ascending, so are the fetched list and the list an add stores |
| PageAgent.Agent.constructor | contentScript.js:1-4 | a fresh script has video id "", an empty list, no cached elements, no button and no markers |
| PageAgent.Agent.FetchBookmarks | contentScript.js:7-18 | the stored list for the current video when the runtime is alive and the key exists, otherwise the empty list; nothing changes |
| PageAgent.Agent.AddBookmarkMarker | contentScript.js:21-27 | appends exactly one marker, carrying the time's id |
| PageAgent.Agent.RemoveBookmarkMarker | contentScript.js:30-36 | the markers become the old markers without the first one carrying the time's id |
| PageAgent.Agent.RemoveAllBookmarkMarkers | contentScript.js:39-44 | the loop leaves no marker |
| PageAgent.Agent.AddAllBookmarkMarkers | contentScript.js:47-51 | appends the ids of the list's bookmarks, in order |
| PageAgent.Agent.StoreNewBookmark | contentScript.js:55-65 | with a player: the new entry is built from the player's time; the video's key becomes the sorted extension of the fetched list, and other keys are unchanged; the in-memory list becomes the fetched list, or the stored list in the corrected form; sortedness is preserved |
| PageAgent.Agent.AddNewBookmark | contentScript.js:54-72 | with no player, nothing changes. Otherwise: the in-memory list becomes the fetched list; the video's key becomes the sorted extension (the new entry alone when the runtime is gone), and other keys are unchanged; a marker with the new time's id is appended exactly when the progress bar is there; the badge is sent exactly when the progress bar and the runtime are both there. Sortedness is preserved |
| PageAgent.Agent.AddNewBookmarkSynced | contentScript.js:54-72 | the corrected add: the same storage, marker, badge (progress bar and runtime) and sortedness effects, but with a player the in-memory list is the stored list |
| PageAgent.Agent.CheckForPlayer | contentScript.js:75-103 | the cached elements are re-read. With an element missing the result is false and nothing else changes. With the runtime gone and no button, the probe throws: the list becomes empty, and there is no button, no new marker and no result. Otherwise the result is true: the fetched list becomes the in-memory list; a button is inserted only when there is none, so under `Valid()` there is exactly one afterwards; one marker per fetched bookmark is appended. Storage is never written |
| PageAgent.Agent.OnNew | contentScript.js:157-159 | the video id is replaced, and then the probe's effect follows, including its throw |
| PageAgent.Agent.OnPlay | contentScript.js:160-161 | the player seeks to the value if there is a player element; nothing else changes |
| PageAgent.Agent.OnDelete | contentScript.js:162-170 | the list loses exactly the entries at t and is stored under the current video (other keys unchanged); the first marker with t's id goes; the reply is the new list |
| PageAgent.Agent.OnDeleteAll | contentScript.js:171-178 | the list empties, the empty list is stored, every marker goes, and the reply is empty |
| PageAgent.Agent.OnMessage | contentScript.js:154-180 | dispatch by type. No message changes the runtime or the page. NEW has the probe's effect, and storage and the player's time are kept; it replies whether the player was found, or not at all when the probe throws. PLAY seeks the player if there is one, and nothing else changes. DELETE and DELETE_ALL are as above, and keep the video id, the cached elements, the button and the player's time. Any other type changes nothing and gets no reply. Sortedness is preserved |
| PageAgent.Agent.OnKeyDown | contentScript.js:190-197 | the add as written has its full effect, including its runtime-gone badge outcome, if the guard holds; otherwise nothing changes and no badge is sent |
| PageAgent.ExampleAdd | contentScript.js:54-64 | adding at 20 s to [10 "A", 30 "B"] creates "Bookmark at 00:00:20" and stores it between them |
| PageAgent.ExampleDeleteStale | contentScript.js:164 | deleting 30 s from the stale list [10 "A", 30 "B"] leaves [10 "A"] |
| PageAgent.ExampleDeleteStored | contentScript.js:164 | deleting 30 s from the stored list [10 "A", 20, 30 "B"] leaves [10 "A", 20] |
| PageAgent.ExampleSession | contentScript.js:157-159 | a fresh script receiving NEW for a video whose page has all player elements and whose stored list is [10 "A", 30 "B"]: the list is loaded, one button is inserted, and the two markers are rendered |
| PageAgent.AddThenDeleteLosesBookmark | contentScript.js:61-65 | as written: stored [10 "A", 30 "B"], then NEW, an add at 20 s and DELETE 30, leave [10 "A"] stored; the new bookmark is lost |
| PageAgent.SyncedAddThenDeleteKeepsBookmark | contentScript.js:61-65 | corrected: the same steps leave [10 "A", 20 "Bookmark at 00:00:20"] stored |
| PageAgent.RepeatedProbes | contentScript.js:80-97 | two successful probes leave one button; the markers are the two stored bookmarks' ids and then the same two ids again, four in all |
| PageAgent.ProbeWithoutProgressBar | contentScript.js:76-102 | with no progress bar the probe fails, and it fetches, inserts and renders nothing |
| PageAgent.RuntimeGoneSession | contentScript.js:54-103 | with the runtime gone, NEW on a page with all elements but no button gets no reply and leaves no button; a later add stores the new entry alone, appends its marker and sends no badge |
| PageAgent.DeleteSharedTime | contentScript.js:162-168 | two bookmarks at 5 s: DELETE drops both entries but only one of their two markers |

## Left out

- `background.js` and `getActiveTabURL` (`utils.js:2-6`) are not part of
  this model. They are tab and navigation plumbing outside the page agent.
- `addStyles` and `init`'s style sheet are left out, as are the button's
  image, title and click wiring. They are presentation only.
- The marker's `style.left` percentage and the player's `duration` are left
  out. They are layout only; the model keeps each marker's id and order.
- `parseFloat` of the `DELETE` value is not modelled: `Delete` carries the
  parsed number. NaN and the other non-finite numbers are not modelled either.
- Markers.Key: matches `toFixed(3)` only for \|t\| < 10^21. Above that,
  `toFixed` switches to exponent notation; no playback position gets there.
- Floating point is not modelled. Times are exact reals. Comparisons and
  `a.time - b.time` are exact. That is sound for the difference of two finite
  doubles of this range, whose sign is always the sign of the true difference.
- TimeFormat.GetTimeDenotesTimeOfDay: holds only for trunc(t) between year
  0000 and year 9999. Outside that range `toISOString` writes a six-digit year
  or throws. `PageAgent.PlaybackTime` bounds the player's time accordingly.
- TimeFormat.GetTime: is the result only for a local offset that is a whole
  number of minutes. `LocalGetTime` covers any constant offset. An offset
  that changes between the epoch and the result, such as a daylight-saving
  switch, is not modelled: that needs the platform's time-zone table.
- Shortcut.LowerCase: lower-cases ASCII letters only. Full Unicode
  `toLowerCase` maps no other single character onto a letter of "input" or
  "textarea" except the Kelvin sign (to "k"), which neither word contains.
  So the guard is unaffected.
- Asynchrony is not modelled. Interleavings of the `await`s with other
  handlers are left out, as are races between tabs on shared storage and
  storage quota errors. Each handler is modelled as one atomic step.
- `chrome.storage.sync.set` is modelled as always succeeding, even when the
  runtime is gone. The code guards only the read.
- The console error and `event.preventDefault()` are left out. They have no
  effect on the modelled state.

## Findings

| source | as written | input that shows it | evidently intended | confidence | as-written member | corrected member |
|---|---|---|---|---|---|---|
| contentScript.js:61-65 | the add sets `currentVideoBookmarks` to the list fetched before the add. It stores the sorted extension but never keeps it in memory, so a later `DELETE` (line 164) filters and stores the stale list | stored [10 "A", 30 "B"], NEW, add at 20 s, DELETE 30: storage ends as [10 "A"], and the new bookmark is lost | the in-memory list equals the list just stored, so the same steps end with [10 "A", 20 "Bookmark at 00:00:20"] | not executed | PageAgent.AddThenDeleteLosesBookmark | PageAgent.Agent.AddNewBookmarkSynced |
