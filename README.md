# Clipboard history, modelled in Dafny

This project models the core of a desktop clipboard-history application, and
proves properties about that model. A background monitor polls the system
clipboard. It classifies each snapshot as a file, an image or text, and
fingerprints the content. It then decides whether the snapshot is a new change
to report. Reported changes are stored in a history table, which the user can
search, favourite, delete, export to JSON and back up. When the user copies a
history item back to the clipboard, the widget first "arms" a one-shot
suppression, so the monitor does not report the application's own write as a
new change.

Two generations of the application are modelled side by side:

- **The enhanced monitor, store and widget.**
  - `Monitor` and `Classifier` model `clipboard_monitor.py`: fingerprints, the
    self-echo suppressor, the 16-entry recent window, the tick and the polling
    loop.
  - `HistoryStore` models `database_manager.py`: file, image and backup
    columns, search, export and backup.
  - `HistoryWidget` models `clipboard_history_widget.py`: the type filter, the
    list entries and the copy-back.
- **The legacy application.** It is the one `clipboard_history_app.py`
  builds. `LegacyMonitor`, `LegacyStore` and `LegacyApp` model it: a text-only
  monitor, a text-only store and the tray menu.

Modules shared by both generations:

| module | what it models |
|---|---|
| `Table` | The history table: rows with a unique content fingerprint, upsert, newest-first queries, delete, favourite and clear. It is generic in the extra columns each store adds. |
| `Text` | Python's `str.strip`, substring search, the one-line previews, decimal digits and `os.path.basename`. |
| `Base64` | Standard Base64 with padding. |
| `UrlCheck` | The parts of `urllib.parse.urlsplit` that `is_url` depends on. |
| `Fingerprint` | The content fingerprint. |
| `Wrappers` | `Option`. |

How the model is stated:

- **Pure code** is written as functions on values, with lemmas. This covers
  classification, the suppressor decision, window pruning, the tick, filters
  and export records.
- **Objects that update their fields** are classes. This covers the monitor,
  the application properties, both database managers and the tray menu. Each
  method's `ensures` ties the new state to one of those functions applied to
  the old state. The loops of the source (`_is_recent`, `run`, the export loop,
  the tray update) are `while`/`for` loops with invariants.
- **Time is an input.** `monotonic()` is a `real` parameter `now`. SQLite's
  `CURRENT_TIMESTAMP` is an `int` parameter. `datetime.now().isoformat()` is a
  string parameter.
- **The polling loop** is the sequence of observations its ticks make before
  `stop()`.

Four details of the code that the model keeps as written:

- `_hash_content` falls back to `""` when hashing raises
  (clipboard_monitor.py:34-36). Encoding with `errors="ignore"` cannot raise,
  so the fallback is never taken.
- An image that is not a usable `QImage` does not end the classification.
  It falls through to the text check (clipboard_monitor.py:172-190).
- Arming without a fingerprint clears only `clip_skip_once`, and leaves
  `clip_skip_hash` as it was (clipboard_monitor.py:75-78).
- The legacy store refuses whitespace-only content of every type
  (clipboard_history_app.py:82-83). The newer store refuses it only for type
  `text` (database_manager.py:71).

## Model

| member | source | states |
|---|---|---|
| Fingerprint.HashContent | clipboard_monitor.py:28-36 | The fingerprint of any content is non-empty; the source's `""` fallback is unreachable. |
| Fingerprint.HashIdentifiesContent | database_manager.py:75 | Two contents share a fingerprint exactly when they are equal, so the table's unique hash column means unique content. |
| Monitor.PruneCount | clipboard_monitor.py:41-44 | The `popleft` loop removes exactly the leading run of expired entries, and stops at the first live one. |
| Monitor.PruneKeepsLiveSuffix | clipboard_monitor.py:38-44 | Pruning keeps a suffix of the window in order, and every removed entry had expired. The first kept entry is live, and no live entry is lost. |
| Monitor.PruneFront | clipboard_monitor.py:41-44 | One pass of the `popleft` loop: an expired front entry is dropped and pruning goes on. Otherwise the window is already pruned. |
| Monitor.LiveEntryIsRecent | clipboard_monitor.py:38-46 | An entry that has not expired still answers `_is_recent` for its fingerprint. |
| Monitor.Remembered | clipboard_monitor.py:48-50 | A non-empty fingerprint is appended with its time, and a full 16-entry deque drops its oldest entry. An empty fingerprint changes nothing. |
| Monitor.RememberedKeepsValid | clipboard_monitor.py:48-50 | Remembering a non-empty fingerprint keeps the window at most 16 entries long and free of empty fingerprints. |
| Monitor.UnarmedNeverSkips | clipboard_monitor.py:60-62 | When `clip_skip_once` is false, there is no skip and no change to the properties. |
| Monitor.MatchingEchoIsSkippedOnce | clipboard_monitor.py:64-71 | Armed with a fingerprint, the matching observation is skipped, and both properties are cleared. |
| Monitor.OtherContentKeepsArm | clipboard_monitor.py:72-74 | Armed with a fingerprint, a different observation is not skipped and leaves the arm intact. |
| Monitor.UnconditionalArmSkipsNext | clipboard_monitor.py:75-78 | Armed without a fingerprint, the next observation is skipped whatever it is. Only the flag is cleared. |
| Monitor.FaultFailsOpen | clipboard_monitor.py:79-83 | A fault while reading the properties gives no skip and clears both properties. |
| Monitor.SkipHappensOnce | clipboard_monitor.py:57-78 | After a skip, no later observation is skipped until the widget arms again. |
| Monitor.TickKeepsValid | clipboard_monitor.py:107-127 | Every tick keeps the window at most 16 entries long and free of empty fingerprints. |
| Monitor.EmitsExactlyWhenNew | clipboard_monitor.py:107-127 | A tick emits exactly when there is content, the suppressor does not skip it, the pruned window does not hold it, and it differs from the last fingerprint. The event carries the classified triple, and afterwards its fingerprint is the last one and is in the window. |
| Monitor.EmptyContentChangesNothing | clipboard_monitor.py:103-107 | A snapshot that classifies to empty content changes no state and emits nothing. |
| Monitor.SkippedEchoBecomesLast | clipboard_monitor.py:110-115 | A skipped echo emits nothing, becomes the last fingerprint, and is remembered without pruning. |
| Monitor.RecentContentIsNotEmitted | clipboard_monitor.py:117-120 | Content held by a live window entry is not emitted, even when it differs from the last fingerprint, and the last fingerprint is unchanged. |
| Monitor.NoEmissionOnRepeat | clipboard_monitor.py:122-127 | Right after an emission, the same content emits nothing. |
| Monitor.Apply | clipboard_monitor.py:96-129 | One tick or one arming keeps the state valid, and extends the event list by at most one event without changing earlier events. |
| Monitor.Replay | clipboard_monitor.py:96-129 | A run of operations keeps the state valid, and emits at most one event per operation. |
| Monitor.ReplaySnoc | clipboard_monitor.py:96-129 | Replaying one more operation applies it to the outcome so far. |
| Monitor.ReplayPollStep | clipboard_monitor.py:96-129 | One more pass of the polling loop extends the replay by that tick's state, properties and event. |
| Monitor.Polls | clipboard_monitor.py:96-98 | The loop's ticks are one `Poll` per observation, in order. |
| Monitor.AppProperties.constructor | clipboard_monitor.py:59-64 | Before anything sets them, both properties read as unset. |
| Monitor.ClipboardMonitor.constructor | clipboard_monitor.py:19-24 | A new monitor has no last fingerprint, an empty window and the given dedupe window. |
| Monitor.ClipboardMonitor.IsRecent | clipboard_monitor.py:38-46 | The loop leaves the window equal to `Pruned` of the old window. The answer is whether the pruned window holds the fingerprint. |
| Monitor.ClipboardMonitor.Remember | clipboard_monitor.py:48-50 | The window becomes `Remembered` of the old window, and nothing else changes. |
| Monitor.ClipboardMonitor.ShouldSkipForSelfCopy | clipboard_monitor.py:52-83 | The answer and the new properties are those of `SelfCopyCheck` on the old properties. |
| Monitor.ClipboardMonitor.Tick | clipboard_monitor.py:97-129 | The new fields, properties and event are those of `TickStep` on the old ones. |
| Monitor.ClipboardMonitor.Run | clipboard_monitor.py:87-134 | After the loop, state, properties and emitted events equal `Replay` of the polls. |
| MonitorTraces.TickSetsLastToSeen | clipboard_monitor.py:107-127 | A tick leaves the last fingerprint as it was, or sets it to the fingerprint of what it saw. |
| MonitorTraces.RepeatEmitsAtMostOnce | clipboard_monitor.py:96-129 | While the clipboard shows only one content, any interleaving of ticks and arms emits that content at most once, and not at all when it was already the last. |
| MonitorTraces.RepeatEmitsExactlyOnce | clipboard_monitor.py:96-129 | Unarmed ticks on the same new content emit exactly one event, the first tick's. |
| MonitorTraces.OwnCopyIsSuppressed | clipboard_monitor.py:64-71 | Arming for content and then seeing it emits nothing, and seeing it again emits nothing either. |
| MonitorTraces.OtherContentDoesNotConsumeArm | clipboard_monitor.py:72-74 | Other content seen while armed is reported as if nothing were armed, and does not clear the arm. The awaited content is then still suppressed, and only then is the arm cleared. |
| MonitorTraces.NewestEntrySurvives | clipboard_monitor.py:38-50 | The newest window entry survives pruning while live, and survives remembering one more. |
| MonitorTraces.NewestEntrySurvivesTick | clipboard_monitor.py:107-127 | Whatever a tick does, the newest live entry of the window is still there afterwards. |
| MonitorTraces.EmissionIsNewestEntry | clipboard_monitor.py:126-127 | After an emission, the emitted fingerprint, stamped with the tick's time, is the newest entry. |
| MonitorTraces.KeptTick | clipboard_monitor.py:38-50 | A tick at a time when an entry is live keeps it in the window, with at most one more entry after it, while fewer than 15 follow it. |
| MonitorTraces.KeptReplay | clipboard_monitor.py:38-50 | Any operations at times when an entry is live keep it in the window, with at most one more entry after it per operation, as long as fewer than 16 end up after it. |
| MonitorTraces.ReturnWithinWindowIsNotEmitted | clipboard_monitor.py:117-120 | Content that was emitted and comes back within the window is not emitted again, whatever the at most 15 operations in between saw or armed. |
| MonitorTraces.TickWindowHashes | clipboard_monitor.py:107-127 | After a tick, the window holds only fingerprints it held before, plus the one just seen. |
| MonitorTraces.TickWindowShapes | clipboard_monitor.py:107-127 | A tick leaves the window as it was, or pruned, and then possibly with the fingerprint it saw remembered. |
| MonitorTraces.ArmedTickIgnoresOther | clipboard_monitor.py:72-74 | Armed for one fingerprint, a tick that sees other content reports and records exactly what an unarmed tick would, and keeps the arm. |
| MonitorTraces.ArmedTickConsumesEcho | clipboard_monitor.py:64-71 | Armed for the fingerprint of what a tick sees, the tick reports nothing and clears the arm. |
| MonitorTraces.TextCopyIsObserved | clipboard_monitor.py:192-200 | Non-blank stripped text on the clipboard is observed as itself, as type `text`. |
| MonitorTraces.NewTextIsReported | clipboard_monitor.py:122-127 | Unarmed, a tick seeing text that is not in the window and not the last one reports it. |
| MonitorTraces.SameTextIsNotReported | clipboard_monitor.py:117-122 | Unarmed, a tick seeing the last content again reports nothing and changes no fingerprint. |
| MonitorTraces.EchoIsNotReported | clipboard_monitor.py:110-115 | A tick seeing the armed content reports nothing, takes it as last and disarms. |
| MonitorTraces.Session | clipboard_monitor.py:96-129 | Six operations: copy `a`, see `a` again, arm for `b`, see `b`, see `b` again, copy `c`. Exactly two events are emitted, for `a` and for `c`. |
| Classifier.ExistingFile | clipboard_monitor.py:144-150 | A path is found exactly when the first URL is a local file with a non-empty path that exists, and then it is that path. Later URLs are never considered. |
| Classifier.FileMetadata | clipboard_monitor.py:154-169 | The metadata of a file entry: its path, size, guessed MIME type (`application/octet-stream` when none is guessed) and thumbnail. When `os.stat` fails it is the path alone. `Classifier.FileWins` states it as the metadata a file snapshot reports. |
| Classifier.ProcessClipboardData | clipboard_monitor.py:136-205 | The type is `file`, `image` or `text`. Text is always stripped. Empty content is the `("", "text", {})` triple, except for an image with no bytes. |
| Classifier.FileWins | clipboard_monitor.py:144-170 | When the first URL is a local file with a non-empty path that exists, the snapshot is reported as that file by its path, with the path in the metadata, whatever image or text it also holds. |
| Classifier.OnlyFirstUrlCounts | clipboard_monitor.py:143-147 | When the first URL is not an existing local file, the other URLs are never looked at. |
| Classifier.ImageBeforeText | clipboard_monitor.py:172-190 | Without a file, an image is reported as the Base64 of its PNG bytes, with `image/png` and the byte count, whatever text is present. The content decodes back to those bytes. |
| Classifier.TextIsStripped | clipboard_monitor.py:192-200 | Whitespace-only text is nothing. Other text is reported stripped, with `is_url` set exactly when the stripped text is a URL. |
| Classifier.TextReclassifiesToItself | clipboard_monitor.py:192-200 | Reported text, put back on the clipboard, is reported again unchanged. |
| Classifier.EmptySnapshotIsNothing | clipboard_monitor.py:202-205 | An empty snapshot gives `("", "text", {})`. |
| UrlCheck.IsUrl | clipboard_monitor.py:228-234 | `is_url`, also at clipboard_history_widget.py:219-225: true exactly when the split succeeds with a non-empty scheme and a non-empty network location, and false where the split raises. `UrlHasSchemeAndSlashes` and `SchemeHostIsUrl` state what it accepts. |
| UrlCheck.UrlHasSchemeAndSlashes | clipboard_monitor.py:228-234 | Text accepted as a URL starts, once cleaned, with a scheme followed by `://`. |
| UrlCheck.SplitHasSchemeAndSlashes | clipboard_monitor.py:228-234 | Cleaned text with both a scheme and a network location starts with a letter and has `://` right after its scheme. |
| UrlCheck.SchemeHostIsUrl | clipboard_monitor.py:228-234 | `scheme://host`, with a well-formed scheme and a non-empty ASCII host, optionally followed by a path, is accepted as a URL. |
| Base64.Encode | clipboard_monitor.py:182 | The encoding has length 4·⌈n/3⌉ and is empty exactly for empty data. |
| Base64.Decode | clipboard_history_widget.py:314 | `b64decode` of text in groups of four alphabet characters. Decoding succeeds only when the length is a multiple of four, and `Base64.RoundTrip` shows it inverts `Encode`. |
| Base64.RoundTrip | clipboard_monitor.py:182 | Decoding what was encoded gives back the original bytes. |
| Base64.BlockRoundTrip | clipboard_monitor.py:182 | Each three-byte group encodes to four characters that decode back to the group. |
| Text.Strip | clipboard_monitor.py:194 | The result is empty exactly when the text is all whitespace. Otherwise it starts and ends with a non-space, and is a slice of the text. |
| Text.StripIdempotent | clipboard_monitor.py:194 | Stripping twice is stripping once. |
| Text.ContainsInfix | database_manager.py:144-146 | A text made of any prefix, the term and any suffix contains the term. |
| Text.ContainsSplits | database_manager.py:144-146 | A contained term occurs in the text at some position. |
| Text.Preview | clipboard_history_app.py:541-543 | The preview has the text's first `n` characters with line breaks made spaces, followed by `...` exactly when the text was longer. |
| Text.PreviewIsOneLine | clipboard_history_app.py:342-344 | No character of a preview is a line break. |
| Text.PreviewOfShortLine | clipboard_history_app.py:541-543 | A text of at most `n` characters without line breaks previews as itself. |
| Text.DecimalRoundTrip | clipboard_history_widget.py:182-189 | A number's decimal digits read back as that number. |
| Text.Basename | clipboard_history_widget.py:178-180 | The basename is a suffix of the path with no `/` in it. When it is shorter than the path, a `/` comes right before it. |
| Table.FindByHash | database_manager.py:82-87 | The index found holds the fingerprint. `None` means no row holds it. |
| Table.Upserted | database_manager.py:82-115 | The insert-or-touch of `add_clipboard_item`, also at clipboard_history_app.py:93-117. Stored content gets the new timestamp and one more access; other content is appended with the next id. `UpsertTouchesExisting`, `UpsertInsertsNew`, `UpsertKeepsWellFormed` and `UpsertTwiceKeepsOneRow` state it. |
| Table.UpsertTouchesExisting | database_manager.py:89-98 | Known content refreshes its row's timestamp and increments its access count. No row is added and the other rows are unchanged. |
| Table.UpsertInsertsNew | database_manager.py:99-115 | New content is appended as one non-favourite row with the next id and access count 0. The id counter advances and the old rows are unchanged. |
| Table.UpsertKeepsWellFormed | database_manager.py:61-123 | Upserting keeps ids unique and below the counter, and keeps each fingerprint on one row matching its content. |
| Table.UpsertTwiceKeepsOneRow | database_manager.py:27 | Adding the same content twice adds at most one row, and exactly one row then holds that content. |
| Table.NewestFirstOrderSorts | database_manager.py:158 | The newest-first order is sorted by timestamp, descending, and is a permutation of the rows. |
| Table.InsertByTimeSorts | database_manager.py:158 | Inserting a row into a newest-first sequence keeps it newest first. |
| Table.Select | database_manager.py:144-156 | The `WHERE` of a query: no more rows than the table, and only rows the condition accepts. `SelectExactly` adds that it keeps every accepted row, each no more often than the table holds it. |
| Table.SelectExactly | database_manager.py:144-158 | The selection is exactly the rows that match, and no row appears more often than in the table. |
| Table.SelectAll | clipboard_history_app.py:140-149 | Without search or favourites there is no `WHERE` clause: a condition every row meets selects the whole table, in order. |
| Table.Limit | database_manager.py:160-162 | A positive limit keeps the first `limit` rows. A limit of 0 or less keeps all of them. |
| Table.LimitOfSorted | database_manager.py:158-162 | Limiting a newest-first result keeps it newest first, and every row left out is no newer than any row kept. |
| Table.Query | database_manager.py:136-165 | `SELECT … WHERE … ORDER BY timestamp DESC LIMIT ?`: the selection, ordered newest first, then limited. `QueryIsNewestMatches` and `UnlimitedQueryMembers` state what it returns. |
| Table.QueryIsNewestMatches | database_manager.py:125-168 | A query returns matching rows, newest first. Each row comes back at most as often as the table holds it. With a positive limit it returns `limit` rows, or all matches when fewer match. With no positive limit it returns exactly the matches. Any matching row left out is no newer than every row returned. |
| Table.UnlimitedQueryMembers | database_manager.py:125-168 | Without a limit, a query returns exactly the rows the condition accepts. |
| Table.SelectKeepsWellFormed | database_manager.py:170-208 | Keeping any subset of the rows, as delete and clear do, keeps ids and fingerprints unique. |
| Table.WithoutId | database_manager.py:170-178 | `DELETE … WHERE id = ?`: every row except the one with that id. `DeleteRemovesExactlyId` states it. |
| Table.DeleteRemovesExactlyId | database_manager.py:170-178 | Deleting removes the row with that id, keeps every other row and keeps the table well formed. |
| Table.Toggled | database_manager.py:180-193 | Only the row with that id changes, and only its favourite flag, which is flipped. |
| Table.ToggleTwiceRestores | database_manager.py:180-193 | Toggling twice restores the table. |
| Table.ToggleKeepsWellFormed | database_manager.py:180-193 | Toggling keeps the table well formed. |
| Table.Cleared | database_manager.py:195-208 | `DELETE … WHERE is_favorite = 0` when keeping favourites, and `DELETE` of every row otherwise. `ClearKeepsExactlyFavorites` states it. |
| Table.ClearKeepsExactlyFavorites | database_manager.py:195-208 | Clearing keeps exactly the favourites when asked to keep them, and nothing otherwise. The table stays well formed. |
| HistoryStore.Matches | database_manager.py:144-156 | The `WHERE` of `get_clipboard_history`: content or path contains the search term when one is given, the row is a favourite when asked, and its type is the filtered one unless the filter is `all`. `GetClipboardHistory` returns exactly these rows when unlimited. |
| HistoryStore.Pending | database_manager.py:274 | `WHERE backed_up = 0`. `BackupLeavesNothingPending` states that a backup leaves no row pending. |
| HistoryStore.ToExportItem | database_manager.py:227-240 | An export record copies the row's id, content, type, file path, file size, MIME type, timestamp, favourite flag and access count. Its thumbnail is the Base64 of the stored bytes, present exactly when those bytes are non-empty. |
| HistoryStore.ExportedThumbnailRoundTrip | database_manager.py:234-236 | An exported thumbnail decodes back to the stored bytes. |
| HistoryStore.ExportList | database_manager.py:226-241 | The exported list has one record per row, in order. |
| HistoryStore.ItemsBefore | database_manager.py:285-291 | The items a backup appends to are missing exactly when the backup file parses without an `items` list. |
| HistoryStore.IdsOf | database_manager.py:250 | Every selected row's id is in the set, and every id in the set belongs to a selected row. |
| HistoryStore.Marked | database_manager.py:253-254 | Marking sets `backed_up` and changes nothing else. |
| HistoryStore.MarkBackedUp | database_manager.py:251-257 | Rows whose id is in the set are marked, and the others are unchanged. |
| HistoryStore.MarkKeepsWellFormed | database_manager.py:246-259 | Marking keeps the table well formed. |
| HistoryStore.SelectedIds | database_manager.py:250 | A row's id is among the selected ids exactly when the row matches. |
| HistoryStore.MarkingSelectedRows | database_manager.py:246-259 | Marking the selected ids marks exactly the matching rows. |
| HistoryStore.BackupLeavesNothingPending | database_manager.py:323-335 | After a backup marks the pending rows, no row is pending. |
| HistoryStore.FullExportLeavesNothingToBackUp | database_manager.py:246-259 | After a full export, the next backup finds nothing to back up. |
| HistoryStore.DatabaseManager.constructor | database_manager.py:12-15 | The manager opens over a well-formed table and a backup file. |
| HistoryStore.DatabaseManager.AddClipboardItem | database_manager.py:61-123 | The add succeeds exactly when the content is not blank text. It then upserts the row with its file columns and `backed_up` false, and otherwise changes nothing. |
| HistoryStore.DatabaseManager.GetClipboardHistory | database_manager.py:125-168 | Returns rows matching search (content or path), favourites and type, newest first, each at most as often as stored. A positive `limit` returns that many rows, or all matches when fewer match. Exactly the matches are returned when `limit <= 0`, and none left out is newer than one returned. |
| HistoryStore.DatabaseManager.DeleteItem | database_manager.py:170-178 | Removes exactly the row with that id. |
| HistoryStore.DatabaseManager.ToggleFavorite | database_manager.py:180-193 | Flips that row's favourite flag. |
| HistoryStore.DatabaseManager.ClearHistory | database_manager.py:195-208 | Keeps exactly the favourites, or nothing. |
| HistoryStore.DatabaseManager.ExportItems | database_manager.py:226-241 | The loop builds the export list of the selected rows, in order. |
| HistoryStore.DatabaseManager.MarkItemsBackedUp | database_manager.py:248-259 | Sets `backed_up` on exactly the rows with the given ids and changes nothing else, so the table stays well formed. |
| HistoryStore.DatabaseManager.ExportToJson | database_manager.py:210-261 | An unwritable file changes nothing. Otherwise the file holds the info and the records of the selected rows, those rows are marked as backed up, and their count is returned. |
| HistoryStore.DatabaseManager.BackupUnsyncedItems | database_manager.py:263-341 | With nothing pending, a file without an `items` list, or an unwritable file, the backup returns 0 and changes nothing. Otherwise it appends the pending rows' records and sets auto-backup info with the new total. It marks those rows and returns their count. |
| LegacyStore.Matches | clipboard_history_app.py:140-149 | The legacy `WHERE`: content contains the search term when one is given, and the row is a favourite when asked. The legacy `GetClipboardHistory` returns exactly these rows when unlimited. |
| LegacyStore.DatabaseManager.constructor | clipboard_history_app.py:43-45 | The manager opens over a well-formed table. |
| LegacyStore.DatabaseManager.AddClipboardItem | clipboard_history_app.py:80-125 | Succeeds exactly when the stripped content is non-empty, whatever its type, and then upserts it. Otherwise it changes nothing. |
| LegacyStore.DatabaseManager.GetClipboardHistory | clipboard_history_app.py:127-161 | Rows whose content contains the term (and favourites only, when asked), newest first, each at most as often as stored. A positive `limit` returns that many, or all matches when fewer match. Exactly the matches are returned when `limit <= 0`, and none left out is newer. |
| LegacyStore.DatabaseManager.DeleteItem | clipboard_history_app.py:163-171 | Removes exactly the row with that id. |
| LegacyStore.DatabaseManager.ToggleFavorite | clipboard_history_app.py:173-186 | Flips that row's favourite flag. |
| LegacyStore.DatabaseManager.ClearHistory | clipboard_history_app.py:188-201 | Keeps exactly the favourites, or nothing. |
| LegacyMonitor.LegacyStep | clipboard_history_app.py:219-229 | A poll emits exactly when the text is present, non-empty and differs from the last. The emitted text becomes the last. |
| LegacyMonitor.LegacyRun | clipboard_history_app.py:214-229 | A run emits at most one text per poll. |
| LegacyMonitor.ReportsAreChanges | clipboard_history_app.py:219-229 | Reported texts are non-empty, and each differs from the one before (the first from the starting text). The last one reported is remembered. |
| LegacyMonitor.RepeatReportsOnce | clipboard_history_app.py:219-229 | Polling the same text `n` times reports it once when it is non-empty and new, and never otherwise. |
| LegacyMonitor.ClipboardMonitor.constructor | clipboard_history_app.py:209-212 | A new monitor remembers the empty text. |
| LegacyMonitor.ClipboardMonitor.Tick | clipboard_history_app.py:219-229 | The new state and the event are those of `LegacyStep`. |
| LegacyMonitor.ClipboardMonitor.Run | clipboard_history_app.py:214-229 | After the loop, state and events equal `LegacyRun` of the polls. |
| LegacyApp.TrayMenu.constructor | clipboard_history_app.py:505-510 | Five fresh actions, hidden, empty and not connected. |
| LegacyApp.TrayMenu.Update | clipboard_history_app.py:537-552 | With each disconnection succeeding: slot `i` is visible exactly when there is an `i`-th item. It then shows the item's 50-character preview, copies its content and is connected. The other slots keep their text. |
| LegacyApp.TrayMenu.UpdateAsWritten | clipboard_history_app.py:537-552 | As written: the loop stops at the first shown slot whose action has no connection, after setting its text and visibility. Slots before it are filled, and slots after it are untouched. Without such a slot it does what `Update` does. |
| LegacyApp.FreshTrayAsWritten | clipboard_history_app.py:505-552 | A tray built by `setup_system_tray` and refreshed as written over two or more items raises at slot 0, and slot 1 stays hidden. |
| LegacyApp.UpdateTrayMenu | clipboard_history_app.py:533-552 | The tray shows the five newest items in order, or every item when there are fewer than five. Each shown slot has the item's preview and copies its content; the others are hidden. |
| LegacyApp.OnClipboardChanged | clipboard_history_app.py:571-578 | Stores a reported non-blank text and refuses blank text. Then the tray shows the five newest items of the new table in order, or all of them when there are fewer. |
| LegacyApp.ListEntry | clipboard_history_app.py:341-351 | A legacy list line: the star for a favourite, the bracketed timestamp and the 100-character preview. `ListEntryIsOneLine` states that it is one line. |
| LegacyApp.ListEntryIsOneLine | clipboard_history_app.py:342-351 | A history-list line has no line break when its timestamp has none. |
| LegacyApp.BlankTextIsReportedButNotStored | clipboard_history_app.py:82-83 | New whitespace-only text is reported by the legacy monitor, then refused by the legacy store. |
| HistoryWidget.TypeFilter | clipboard_history_widget.py:152-160 | The filter is one of four values. Each value other than `all` comes only from its own combo-box entry. |
| HistoryWidget.FilterLabelsRoundTrip | clipboard_history_widget.py:152-160 | Each filter's entry selects it, and every other entry selects `all`. |
| HistoryWidget.MegabyteTenths | clipboard_history_widget.py:183-188 | The megabyte figure is within half a tenth of the exact size. |
| HistoryWidget.SizeText | clipboard_history_widget.py:182-189 | Sizes from 1 MB up read in MB, and sizes below in KB. |
| HistoryWidget.KilobytesReadBack | clipboard_history_widget.py:188-189 | Below 1 MB, the digits read back as the size in whole kilobytes. |
| HistoryWidget.MegabytesReadBack | clipboard_history_widget.py:183-186 | From 1 MB up, the digits read back as the rounded size in tenths of a megabyte. |
| HistoryWidget.DisplayName | clipboard_history_widget.py:178-180 | A file entry shows the whole last component of its path (everything after the last `/`), or `File` when there is no path. |
| HistoryWidget.SizeSuffix | clipboard_history_widget.py:182-189 | ` (size)` in the units of `SizeText` when the size is set and non-zero, nothing otherwise. |
| HistoryWidget.TextPreview | clipboard_history_widget.py:200-206 | The 100-character one-line preview, led by the link icon when the stripped text is a URL. `TextPreviewIsOneLine` states that it is one line. |
| HistoryWidget.ItemPreview | clipboard_history_widget.py:177-206 | The preview by type: icon, display name and size for a file; icon, content length and size for an image; `TextPreview` otherwise. |
| HistoryWidget.Entry | clipboard_history_widget.py:208-213 | `{favorite_mark}[{timestamp}] {preview}`. `StarMarksFavourites` states that it starts with the star exactly for a favourite, followed by the bracketed timestamp and the preview. |
| HistoryWidget.DisplayText | clipboard_history_widget.py:177-213 | The `display_text` of a history row: the `Entry` of the row's favourite flag, timestamp and `ItemPreview`. |
| HistoryWidget.StarMarksFavourites | clipboard_history_widget.py:208-213 | An entry starts with the star exactly for favourites. Behind it come the bracketed timestamp and the preview. |
| HistoryWidget.TextPreviewIsOneLine | clipboard_history_widget.py:200-206 | A text entry's preview has no line break. |
| HistoryWidget.WriteFor | clipboard_history_widget.py:300-319 | Text is written as itself. A file is written as a URL exactly when its path exists. An image is written as its decoded bytes exactly when its Base64 decodes. Every other case is written as text, and an unknown type writes nothing. |
| HistoryWidget.CopyToClipboard | clipboard_history_widget.py:283-321 | Arms the suppressor with the item's fingerprint, then performs `WriteFor`. |
| HistoryWidget.CopiedItemIsNotReported | clipboard_history_widget.py:292-303 | Copying a stored text or file item back is not reported: the next tick skips it, disarms and takes it as last. |

## Left out

- Threads and timing are not modelled: the `QThread`, the 200 ms and 750 ms sleeps, and `stop()`/`wait()` (clipboard_monitor.py:96-134, 236-242). The loop is a finite sequence of ticks, with the time as an input. Arming from the UI thread is an operation interleaved between ticks (`Monitor.Op`).
- Monitor.TickStep: one `now` serves the whole tick, whereas the source reads `monotonic()` separately in `_is_recent` and in `_remember` (clipboard_monitor.py:39, 50). The stamp the source remembers can only be later, so the entry it keeps is younger. The model's stamp makes an entry expire no later than the source's. The properties stated here do not rely on the difference.
- Exceptions inside a tick other than reading the application properties are not modelled. The source only logs them and sleeps.
- Fingerprint.HashContent: SHA-256 itself is not modelled. A tagged copy of the content stands for the digest and is injective, where the real digest is only collision-resistant. Dropping unencodable surrogates (`errors="ignore"`) is not modelled, because Dafny characters are Unicode scalar values.
- Qt, the operating system, `mimetypes` and `create_file_thumbnail` are inputs: the snapshot carries an image's PNG bytes, and the file system is a map of what `os.stat`, `guess_type` and the thumbnailer report. The thumbnailer's scaling is not modelled.
- UrlCheck: `urlparse` is modelled only as far as `is_url` needs it: control-prefix stripping, removal of tab and line breaks, scheme and network location, and the `ValueError` for a lone square bracket. The address validation of a bracketed IPv6 host is not modelled. Neither is the check of a non-ASCII network location under NFKC normalisation, because Unicode normalisation is not modelled. `urlsplit` raises when that form of the location gains one of `/?#@:`, so `is_url` is false there, but `UrlCheck.IsUrl` accepts such a location.
- SchemeHostIsUrl: stated for ASCII hosts only, because a non-ASCII host goes through that NFKC check.
- SQLite errors, connections and transactions are not modelled. A table is a sequence of rows.
- `LIKE '%term%'` is modelled as case-sensitive substring containment, whereas SQLite folds ASCII case and treats `%`/`_` in the term as wildcards.
- `ORDER BY timestamp DESC` leaves ties in an unspecified order. The model keeps table order among equal timestamps, and its contracts do not depend on that order.
- JSON files are values: an export or backup file is the data `json.dump` would write. The `writable` flag stands for `open`/`dump` failing, and the backup file is `Missing`, `Unreadable` or `Parsed`. A parsed `items` value that is not a list is treated as an absent list.
- The export path and dialog, including the Cancel check at clipboard_history_widget.py:432, are left out. That check compares the boolean answer of the question with the Cancel button, so it never fires.
- HistoryWidget.CopyToClipboard: `b64decode` is modelled as strict decoding of padded groups. The source tolerates some malformed input that the model reports as undecodable.
- The monitor's view of an image written back to the clipboard is not modelled, because it depends on how Qt re-encodes the PNG. `CopiedItemIsNotReported` covers text and file items only.
- `strftime` of the timestamp is a parameter. Qt widgets and signals are not modelled. The tray's actions carry a flag saying whether their `triggered` signal is connected.
- LegacyApp.TrayMenu.Update: the application's tray is refreshed as intended. Each disconnection is taken to succeed, although as written the first one raises (see Findings and `LegacyApp.TrayMenu.UpdateAsWritten`). Where the `TypeError` goes afterwards is not modelled: out of `__init__` at clipboard_history_app.py:523, and out of `on_clipboard_changed` at :574 before the list refresh.
- preview_widget.py and setup_app.py are not part of this model. Neither are the dialogs, hotkeys, search debounce, `open_item`, the settings and the window management of both applications.
- LegacyMonitor: `clipboard.text()` raising is a poll that reads `None`; the loop then only sleeps.
- File sizes are natural numbers. A size is never negative in the source either.
- Text.Basename: splits at `/` only, as POSIX `posixpath.basename` does. On Windows `os.path.basename` also splits at `\` and after a drive colon. Every stored path comes from `QUrl.toLocalFile()`, which uses `/` on every platform, so the rows the model sees agree.

## Findings

| source | as written | input that shows it | evidently intended | confidence | as-written member | corrected member |
|---|---|---|---|---|---|---|
| clipboard_history_app.py:505-552 | The tray's recent-item actions are never connected, and `update_tray_menu` calls `action.triggered.disconnect()` with no arguments before connecting. PyQt6 raises `TypeError` for that call on a signal with no connection. The loop stops after setting slot 0's text and visibility. | any table with two or more rows: slot 1 stays hidden | every shown slot gets its preview and copies its item | not executed; rests on PyQt6's documented `disconnect()` behaviour | LegacyApp.FreshTrayAsWritten | LegacyApp.TrayMenu.Update |
