# vocab: a verified model of the word-sync server

This project models the server side of a vocabulary-notebook app in Dafny. Several
devices keep their own word lists and push their changes to a Flask server. The server
stores them in one SQLite `words` table.

The core is `POST /api/sync` (`sync_words`). It merges a batch of client mutations
(creates, edits, deletes) into the table, twenty to a transaction. Each mutation is
keyed by its stripped word and the sending device. The request ends with a `devices`
upsert and one `sync_log` line. Around it the model covers:

- the row loop of the Excel import in both servers (`server.py` and `api/server.py`);
- the word add, edit and delete endpoints of the API server;
- the category add, rename and delete endpoints;
- the integer counters of the per-device quiz statistics;
- `allowed_file`;
- the one-off `cleanup_database.py` script that blanks `nan`/`None`/`<NA>` artefacts.

How the model is organised:

- **Schema.** The `words` table is a value `Table`: rows keyed by their AUTOINCREMENT
  id, plus the next id to hand out.
  - `WellFormed` is the UNIQUE(word, device_id) constraint plus id freshness.
  - `Insert` and `Rewrite` are the only operations that can collide on that key.
  - What happens on a collision is the parameter `Policy`. The table declares
    `ON CONFLICT REPLACE`, which deletes the colliding rows. A second unique index
    aborts the statement. Which one wins depends on the SQLite version, so every
    result is proved for both.
- **Store.Database** is a class with one field per table the core writes. The
  endpoints are methods on it. Each method is proved equal to a pure function
  (`SyncMerge.Merge`/`Run`, `ExcelImport.ImportAll`, `WordApi.Add`, …), and the
  properties are lemmas about those functions.
- **Text** holds Python's `strip`/`lower`/`title`, SQLite's `LIKE '%p%'`, and `str(n)`.
- Clocks (`datetime.now()`, SQLite's `CURRENT_TIMESTAMP`), the client address and the
  device id are parameters.

Behaviours of the code worth knowing, each one modelled as written:

- **The sync path does not title-case words.** `sync_words` only strips the word
  (server.py:926), while add, edit and import title-case it.
- **A first edit does not tombstone the old head.** It inserts a new row under the
  same (word, device_id) key (server.py:986-1006).
  - Under REPLACE, the old head is deleted outright: `FirstEditUnderReplace`.
  - Under the aborting index, the insert always fails and only the pre-step's
    tombstone remains: `FirstEditUnderAbort`.
- **The new row's `original_id` is not always the lineage root.** It is the
  mutation's own `original_id` when truthy, else the head's id. The head's own
  `original_id` is never consulted.
- **A fresh insert copies the mutation's `original_id`** instead of leaving it NULL.
- **Tombstones can disappear under REPLACE.** A collision deletes them physically
  (`CreateWithoutHead`). They are never revived (`MergeEvolves`, `RunEvolves`).
- **`server.py` has no category rename endpoint.** Lines 363-386 are blank. Rename is
  modelled from `api/server.py` only.
- **The two imports treat a blank category differently.** `api/server.py` keeps a
  blank category cell blank; `server.py` turns it into the default (`CategoryVariants`).
- **The cleanup script wipes real words.** It blanks every value that contains `nan`
  in any case, including real words such as "Finance" (`FinanceIsWiped`). Its final
  exact-match pass never finds anything to do (`CleanedColumns`).

## Model

| member | source | states |
|---|---|---|
| Text.TrimStartShape | server.py:926 | stripping the front removes exactly a run of leading whitespace: the result is a suffix of the input that is empty or starts with a non-space |
| Text.TrimEndShape | server.py:926 | stripping the back removes exactly a run of trailing whitespace: the result is a prefix that is empty or ends with a non-space |
| Text.StripShape | api/server.py:260 | `strip()` returns a contiguous piece of its input that is empty or starts and ends with a non-space |
| Text.StripEmptyIff | server.py:926-929 | `not value.strip()` holds exactly when the value is all whitespace, in both directions |
| Text.StripIdempotent | api/server.py:266 | stripping a stripped value changes nothing |
| Text.StripKeepsTrimmed | api/server.py:1016 | a value that neither starts nor ends with whitespace is its own strip |
| Text.LowerChar | server.py:80 | lower-casing a character keeps whether it is a letter and never yields an upper-case letter |
| Text.UpperChar | server.py:665 | upper-casing a character keeps whether it is a letter and never yields a lower-case letter |
| Text.Lower | server.py:80 | `str.lower()` keeps the length and lower-cases each character in place |
| Text.TitleFrom | server.py:665 | `str.title()` keeps the length |
| Text.TitleFromAt | server.py:665 | each character of `str.title()` is upper-cased when the character before it is not a letter, lower-cased otherwise |
| Text.TitleFromIdempotent | api/server.py:266 | title-casing from any starting state is idempotent |
| Text.TitleIdempotent | api/server.py:266 | `title(title(s)) == title(s)`, so a stored word is a fixed point of title-casing |
| Text.ContainsFoldedIff | cleanup_database.py:24 | the `LIKE '%p%'` scan succeeds exactly when `p` occurs at some offset, ASCII case ignored |
| Text.EmptyContainsNothing | cleanup_database.py:34 | an empty value matches no non-empty pattern |
| Text.Strip | server.py:926 | Python's `strip()`; its shape, emptiness and idempotence are stated by `StripShape`, `StripEmptyIff` and `StripIdempotent` |
| Text.Title | server.py:665 | Python's `title()`; its length, per-character casing and idempotence are stated by `TitleFrom`, `TitleFromAt` and `TitleIdempotent` |
| Text.ContainsFolded | cleanup_database.py:24 | SQLite's `LIKE '%p%'`; its meaning is stated by `ContainsFoldedIff` |
| Text.NatToString | server.py:1076 | the rendering of a count is never empty |
| Uploads.LastDot | server.py:80 | the index of the last '.' of a name, or -1 when it has none |
| Uploads.AllowedFileOfParts | server.py:79-80 | a name is accepted exactly when the text after its last dot, lower-cased, is `xlsx` or `xls` |
| Uploads.AllowedFile | server.py:79-80 | `allowed_file`; stated by `AllowedFileOfParts`, `NoDotRefused`, `UpperCaseAccepted` and `LastExtensionDecides` |
| Uploads.NoDotRefused | server.py:79-80 | a name without a dot is refused |
| Uploads.UpperCaseAccepted | api/server.py:69-70 | the extension is compared without regard to case: `NAME.XLSX` is accepted |
| Uploads.LastExtensionDecides | api/server.py:69-70 | only the last extension decides: `x.xlsx.csv` is refused |
| Schema.KeyHolders | server.py:107 | the ids of every row, tombstone or not, holding (word, device_id); used by `Insert`, `Rewrite` and `UniqueHead` |
| Schema.ActiveMatches | server.py:971-974 | the ids of the live rows holding (word, device_id); at most one by `UniqueHead`, the `fetchone()` by `ActiveHead` |
| Schema.Tombstone | server.py:935-941 | the delete UPDATE on one row; `TombstoneAll` and `TombstoneAllEvolves` state what it changes |
| Schema.Distinguished | server.py:107 | two different rows of the table never share (word, device_id) |
| Schema.KeysKeptUnique | server.py:107 | removing rows, or rewriting rows without touching word and device_id, keeps the key unique |
| Schema.StoreUnique | server.py:107 | storing a row whose key no other row holds keeps the key unique |
| Schema.ActiveById | server.py:967 | `WHERE id = ? AND is_deleted = 0` selects that id exactly when it is a live row, and nothing else |
| Schema.ActiveHead | server.py:971-976 | the `fetchone()` of the live row for (word, device) is absent exactly when there is none, and otherwise is the only one |
| Schema.UniqueHead | server.py:107-113 | at most one live row exists per (word, device_id) |
| Schema.Insert | server.py:107-113 | an INSERT aborts exactly under the aborting index when some row holds the key; otherwise the row gets an id above every id so far, the holders of the key are removed, every other row is kept, and the key stays unique |
| Schema.Rewrite | server.py:107-113 | an UPDATE that changes the key aborts exactly when another row holds it under the aborting index; otherwise the row keeps its id, other holders are removed, the rest is kept |
| Schema.Put | server.py:1010-1030 | an UPDATE that keeps word and device_id never collides: it replaces that row only, with the same ids, the same counter and the key still unique |
| Schema.TombstoneAll | server.py:935-950 | the delete UPDATE tombstones exactly the selected rows and leaves every other row as it was |
| Schema.InsertEvolves | server.py:93 | an insert keeps every surviving row's id, key and tombstone, and its new id was never issued |
| Schema.TombstoneAllEvolves | server.py:935-950 | tombstoning never renumbers, re-keys or revives a row |
| Schema.PutEvolves | server.py:1010-1030 | an in-place update that keeps a tombstone a tombstone never renumbers, re-keys or revives a row |
| Schema.EvolvesTransitive | server.py:93 | a step after a step still never renumbers, re-keys or revives a row |
| Store.Database.constructor | server.py:87-146 | a new database has empty tables, an id counter at 1, and the seeded categories marked default |
| Store.Database.InsertWord | server.py:1034-1055 | the table becomes the INSERT's result and the id returned is `lastrowid`; an aborted insert changes nothing |
| Store.Database.RewriteWord | api/server.py:358-372 | the table becomes the UPDATE's result; an aborted update changes nothing |
| WordApi.FirstBlank | api/server.py:259-264 | the first required value that is blank once stripped, every earlier one being filled; none exactly when all are filled |
| WordApi.CheckRequired | api/server.py:257-264 | the validation loop answers with the first required field, in source order, that is missing or blank |
| WordApi.Add | api/server.py:249-326 | `add_word` keeps the table's key unique |
| WordApi.Edit | api/server.py:328-383 | `edit_word` keeps the table's key unique |
| WordApi.Delete | api/server.py:385-414 | `delete_word` keeps the table's key unique |
| WordApi.MissingField | api/server.py:257-264 | the first blank required field; stated by `FirstBlank` and `CheckRequired` |
| WordApi.NewRow | api/server.py:289-304 | the row `add_word` inserts; stated by `AddCreatesLiveRow` |
| WordApi.Revised | api/server.py:358-372 | the row `edit_word` writes; stated by `EditKeepsIdentity` |
| WordApi.SoftDeleted | api/server.py:399-403 | the row `delete_word` writes; stated by `DeleteOnlyThatRow` |
| WordApi.AddWord | api/server.py:249-326 | the endpoint's statements leave the table and reply `WordApi.Add` describes |
| WordApi.EditWord | api/server.py:328-383 | the endpoint's statements leave the table and reply `WordApi.Edit` describes |
| WordApi.DeleteWord | api/server.py:385-414 | the endpoint's statements leave the table and reply `WordApi.Delete` describes |
| WordApi.AddSucceedsIff | api/server.py:257-306 | an add succeeds exactly when all five fields are filled, no live row holds the title-cased word on that device, and no tombstone blocks the insert; a refused add changes nothing |
| WordApi.AddCreatesLiveRow | api/server.py:266-306 | a successful add creates the only live row for the word on that device, under an id above all existing ones, holding a title-case fixed point; the rows afterwards are the old ones minus the tombstones of the key, plus the new one, and every surviving row is unchanged |
| WordApi.AddTwiceRefused | api/server.py:277-286 | adding the same word again from the same device is refused as already existing and changes nothing |
| WordApi.EditKeepsIdentity | api/server.py:358-372 | an edit rewrites word and columns and sets `is_edited` under the same id; device, date, lineage, status and deletion flag stay; only rows holding the new key can disappear |
| WordApi.EditAnswers | api/server.py:335-383 | an edit is refused for a missing id exactly when the id is falsy, for a missing field exactly when the id is given and a field is blank, as not found exactly when both are fine and no row, tombstones included, has the id, and as a store error exactly when the new key is held by another row under the aborting index; only success changes the table |
| WordApi.EditIdempotent | api/server.py:328-383 | sending the same edit again, at any later time, succeeds and changes nothing but the row's `last_synced` |
| WordApi.DeleteOnlyThatRow | api/server.py:397-403 | a delete marks exactly the named row deleted, whatever its state, and changes nothing else; an unknown id still succeeds |
| WordApi.DeleteIdempotent | api/server.py:385-414 | deleting again, at any later time, gives the same reply and changes nothing but the named row's `last_synced`; every id, key and deletion flag stays |
| Categories.Recategorised | api/server.py:615-619 | moving the words of a category keeps the ids, the counter and the key unique |
| Categories.RecategorisedHolding | server.py:411-415 | after the move the target holds exactly its own live words and the moved ones, and the source holds none |
| Categories.Rename | api/server.py:563-627 | `edit_category` keeps the table's key unique |
| Categories.Remove | server.py:387-428 | `delete_category` keeps the table's key unique |
| Categories.Add | api/server.py:525-561 | `add_category`; stated by `AddCreatesOne` and `DefaultsSurvive` |
| Categories.AddCategory | server.py:337-362 | the endpoint's statements leave the categories, words and reply that `add_category` describes in both servers |
| Categories.EditCategory | api/server.py:563-627 | the endpoint's statements leave the categories, words and reply `Categories.Rename` describes |
| Categories.DeleteCategory | api/server.py:629-683 | the endpoint's statements leave the categories, words and reply `Categories.Remove` describes |
| Categories.AddCreatesOne | api/server.py:525-561 | an add succeeds exactly when the stripped name is non-blank and new; it then adds one non-default category and keeps the others; nothing else ever changes |
| Categories.RenameGuardOrder | api/server.py:573-609 | a rename succeeds exactly when both names are given and differ, the old one exists, the new one does not and the old one is not default; a refusal changes nothing; each guard, in source order, gets its own refusal: missing names, equal names, an unknown old name, a taken new name, a default category |
| Categories.RenameMovesLiveWords | api/server.py:612-619 | a rename moves the category with its colour and flag, and moves exactly the live words of the old name to the new one, marking them pending |
| Categories.RemoveMovesToDefault | server.py:399-425 | a delete removes only that non-default category, moves exactly its live words to the default category, and reports how many moved |
| Categories.DefaultsSurvive | server.py:404-408 | no add, rename or delete removes or alters a default category, and no add creates one |
| QuizStatistics.Accumulate | server.py:1432-1458 | a device's first quiz starts its row at one quiz; later quizzes add one quiz and this quiz's score, questions and seconds; the best score is the larger one; the date is the latest |
| QuizStatistics.Upsert | api/server.py:733-751 | the upsert leaves the device's row as `Accumulate` of its old row, and other devices' rows untouched |
| QuizStatistics.UpdateOrInsert | server.py:1430-1458 | the UPDATE-then-INSERT leaves the same rows as the upsert |
| QuizStatistics.MaxScore | server.py:1438 | the best score of a run is one of its scores and at least every one of them |
| QuizStatistics.Replay | server.py:1430-1458 | a run of quizzes applied to a device's row; its totals are stated by `ReplayTotals` and `MaxScore` |
| QuizStatistics.ReplayTotals | server.py:1430-1458 | after any non-empty run of quizzes from no row: the quiz count, the sums of scores, questions and seconds, the best score, and the last date |
| Cleanup.Dirty | cleanup_database.py:34-48 | a value the three UPDATEs blank; stated by `ThreeUpdatesScrub` and `ScrubbedIsClean` |
| Cleanup.ExactFix | cleanup_database.py:65-93 | the exact-match pass on one row; stated by `ExactFixNoop` and `CleanedColumns` |
| Cleanup.NanTotal | cleanup_database.py:51 | the reported total; stated by `NanTotalZero` and `CleanNanValues` |
| Cleanup.Cleaned | cleanup_database.py:3-96 | the table the script leaves; stated by `CleanedColumns`, `SecondRunIsNoop`, `NanSubstringWiped` and `NoNanColumnKept` |
| Cleanup.With | cleanup_database.py:33 | `SET field = v` changes that column and no other |
| Cleanup.BlankWhere | cleanup_database.py:31-35 | each UPDATE keeps the set of rows |
| Cleanup.Scrub | cleanup_database.py:31-49 | the three UPDATEs of a field keep the set of rows |
| Cleanup.CleanField | cleanup_database.py:22-52 | one pass of the field loop keeps the set of rows |
| Cleanup.CleanFields | cleanup_database.py:22-52 | the field loop keeps the set of rows |
| Cleanup.ExactPass | cleanup_database.py:65-93 | the exact-match pass keeps the set of rows |
| Cleanup.ThreeUpdatesScrub | cleanup_database.py:31-49 | the `nan`, `None` and `<NA>` UPDATEs in sequence blank exactly the values matching any of the three patterns |
| Cleanup.PayloadOnlyKeepsWellFormed | cleanup_database.py:31-93 | rewriting only text columns keeps the (word, device_id) key unique |
| Cleanup.ListedFields | cleanup_database.py:12-18 | every column of the model is in `fields_to_clean`, once |
| Cleanup.CleanFieldsAt | cleanup_database.py:22-52 | after the loop over some fields, a row differs only in text columns; a listed column holds its scrubbed value, decided by the original 'nan' count |
| Cleanup.HoldersUnchanged | cleanup_database.py:24-27 | a field's 'nan' count is the same when its turn comes as before the loop |
| Cleanup.ScrubbedIsClean | cleanup_database.py:31-35 | a scrubbed value neither contains 'nan' nor is 'nan' |
| Cleanup.LoopResultAt | cleanup_database.py:22-52 | after the loop, a column holds its scrubbed value and contains no 'nan' |
| Cleanup.ExactFixNoop | cleanup_database.py:65-93 | the exact-match pass leaves a row alone when no column is exactly 'nan' |
| Cleanup.CleanedColumns | cleanup_database.py:3-96 | each column ends as its old value, or blank when its field had some 'nan' and the value matched a pattern; no value contains 'nan'; the exact-match pass is a no-op |
| Cleanup.NanTotalZero | cleanup_database.py:51 | with no 'nan' anywhere the reported total is 0 |
| Cleanup.SecondRunIsNoop | cleanup_database.py:3-96 | running the script a second time changes nothing and reports 0 |
| Cleanup.NoNanColumnKept | cleanup_database.py:24-27 | a column with no 'nan' anywhere is untouched, even where it says 'None' or '<NA>' |
| Cleanup.NanSubstringWiped | cleanup_database.py:24-35 | any value with 'nan' somewhere in it, in any case, ends up blank |
| Cleanup.FinanceIsWiped | cleanup_database.py:24-35 | the category "Finance" is blanked |
| Cleanup.CleanNanValues | cleanup_database.py:3-96 | the script leaves `words` as `Cleaned` of the old rows, keeps the key unique, and reports the 'nan' counts summed per field |
| ExcelImport.ImportOne | server.py:633-730 | one spreadsheet row keeps the table's key unique |
| ExcelImport.Advance | server.py:633-730 | every row lands in exactly one of the two counters |
| ExcelImport.ImportAll | server.py:628-730 | imported plus skipped is the number of rows, and the key stays unique |
| ExcelImport.ImportRow | server.py:635-723 | the row's statements leave the table and verdict `ImportOne` describes |
| ExcelImport.ImportNext | server.py:632-730 | one pass of the loop body moves the table and counters to the import of one more row |
| ExcelImport.ImportRange | api/server.py:1003-1074 | a run of rows in one transaction continues the import of the rows before it |
| ExcelImport.ImportChunked | server.py:627-730 | the fifty-row chunks leave the table and counters of importing all rows in order |
| ExcelImport.ImportAtOnce | api/server.py:1003-1074 | the single transaction leaves the table and counters of importing all rows in order |
| ExcelImport.BlankRowSkipped | server.py:635-638 | a row whose word cell is all whitespace is skipped and changes nothing |
| ExcelImport.ExistingWordRefreshed | server.py:674-703 | a row for a word with a live row on the device rewrites that row under the same id with the new columns, `last_synced` now, edited and pending, keeping word, device, date and lineage; it adds no row and keeps every other row |
| ExcelImport.NewWordInserted | server.py:704-730 | a row for a word with no live row on the device is skipped with nothing changed when a tombstone holds the key under the aborting index; otherwise it is inserted title-cased, live and pending under the next id, the tombstones of the key are removed and every other row is kept |
| ExcelImport.ImportedCount | server.py:725-730 | the imported count is at most the rows with a word, and exactly that under REPLACE |
| ExcelImport.CategoryVariants | api/server.py:1016 | the servers store the same category except for a blank cell, which `server.py` turns into the default and `api/server.py` keeps blank |
| SyncMerge.LineageMatches | server.py:940 | the live rows with that id or that `original_id`; stated by `DeleteByServerId` |
| SyncMerge.EditedRow | server.py:986-1006 | the row a first edit inserts; stated by `FirstEditUnderReplace` |
| SyncMerge.Overwritten | server.py:1010-1030 | the in-place overwrite of the live head; stated by `ResyncOverwritesHead` and `EditOfEditedHead` |
| SyncMerge.FreshRow | server.py:1034-1054 | the row inserted when no live row exists; stated by `CreateWithoutHead` and `EditWithoutHead` |
| SyncMerge.EditPrelude | server.py:957-968 | the edit pre-step keeps the table's key unique |
| SyncMerge.Merge | server.py:922-1061 | one item keeps the table's key unique |
| SyncMerge.WriteWord | server.py:970-1055 | the create/edit write keeps the table's key unique |
| SyncMerge.Extend | server.py:921-1061 | each item adds exactly one outcome |
| SyncMerge.RunFrom | server.py:917-1061 | continuing a run adds one outcome per item |
| SyncMerge.Run | server.py:912-1061 | a request yields one outcome per item and a table with a unique key |
| SyncMerge.ApplyItem | server.py:922-1061 | the loop body's statements leave the table and outcome `Merge` describes |
| SyncMerge.DefaultDeviceName | server.py:908 | the default name is "Device-" followed by the first eight characters of the id, or all of them when shorter |
| SyncMerge.RunCounts | server.py:952-1057 | the running `synced_count` and `server_ids` are the counts and ids of the outcomes |
| SyncMerge.RunConcat | server.py:915-921 | merging `a + b` is merging `a`, then `b` from where `a` stopped: batching changes nothing |
| SyncMerge.ApplyNext | server.py:921-1061 | one pass of the loop body moves the database and counters to the run of one more item |
| SyncMerge.ApplyBatch | server.py:920-1061 | one transaction's items continue the run of the items before it |
| SyncMerge.MergeAll | server.py:915-1061 | the batches of twenty leave the table, counters and ids of merging all items in order |
| SyncMerge.Sync | server.py:897-1088 | no body answers "No data" and changes nothing; otherwise the table is the merge of all items, the response carries the synced count and new ids, the device row is replaced and one log line is appended |
| SyncProperties.BlankWordSkipped | server.py:926-929 | an item whose word is all whitespace is skipped and changes nothing |
| SyncProperties.OutcomeKind | server.py:926-1061 | a blank word is skipped, a delete is a delete, anything else writes or fails, and only an aborted insert fails |
| SyncProperties.DeleteByServerId | server.py:933-941 | a delete with a server id tombstones exactly the live rows with that id or that `original_id`, on any device, and nothing else |
| SyncProperties.DeleteByWord | server.py:942-950 | a delete without a server id tombstones the live row of (word, device), if any, and nothing else |
| SyncProperties.DeleteReplayIsNoop | server.py:932-954 | replaying a delete, at any later time, touches no row and does not count |
| SyncProperties.MergeEvolves | server.py:922-1061 | one item never renumbers, re-keys or revives a row, and new rows get fresh ids |
| SyncProperties.WriteEvolves | server.py:957-1055 | the edit pre-step followed by the write never renumbers, re-keys or revives a row |
| SyncProperties.WriteWordEvolves | server.py:970-1055 | the write never renumbers, re-keys or revives a row |
| SyncProperties.ResyncOverwritesHead | server.py:1008-1031 | a create for a word with a live row on this device overwrites that row in place with the item's columns, `last_synced` now and status synced, and clears `is_edited`; word, device, date and lineage stay; every other row is kept |
| SyncProperties.FirstEditUnderReplace | server.py:984-1007 | under REPLACE, a first edit inserts, under the next id, the edited row built from the item, with `original_id` set to the item's `original_id` or else the old head, and the old head disappears |
| SyncProperties.FirstEditUnderAbort | server.py:984-1007 | under the aborting index, a first edit always fails, and only the pre-step's tombstone takes effect |
| SyncProperties.EditOfEditedHead | server.py:1008-1031 | an edit whose live head is already edited overwrites that head in place with the item's columns, keeps `is_edited` set, keeps every id and leaves every other row as the pre-step left it |
| SyncProperties.EditWithoutHead | server.py:1032-1055 | an edit with no live row after the pre-step inserts an edited row under the next id carrying the item's `original_id`, removing only tombstones of the key, or fails under the aborting index when such a tombstone exists |
| SyncProperties.EditNamingItsOwnHead | server.py:957-1055 | an edit whose `original_id` is its own live head tombstones it; the insert then fails under abort, leaving no live row, or replaces it under REPLACE |
| SyncProperties.CreateWithoutHead | server.py:1032-1055 | with no live row, a create inserts under the next id and removes only the tombstones of the key, keeping every other row, unless a tombstone blocks it under abort |
| SyncProperties.ReplayedCreateIsIdempotent | server.py:970-1031 | sending the same successful create again, at any later time, returns the same id and changes nothing but that row's `last_synced` |
| SyncProperties.OtherDevicesUntouched | server.py:942-1055 | without a server id or an `original_id`, an item changes only rows of its own device |
| SyncProperties.RunAccounting | server.py:952-1057 | every write-path item yields an id or fails; `synced` is the ids plus the deletes that hit a row, and at most the number of items |
| SyncProperties.ReplaceNeverFails | server.py:986-1055 | under REPLACE no item of a request fails |
| SyncProperties.RunEvolves | server.py:915-1061 | a whole request never renumbers, re-keys or revives a row |

## Left out

- HTTP routing, CORS pre-flight answers, JSON parsing and response formatting. A request body is a datatype, and the status codes are the `Failure`/`Reply` constructors.
- Clocks (`datetime.now()`, `CURRENT_TIMESTAMP`), the client address and the Flask request are parameters.
- SQL NULL in text columns: every payload column is a string. The model does not follow a JSON value of the wrong type (for example a numeric word), which makes `.strip()` raise.
- Exceptions other than a (word, device_id) collision.
  - In the sync loop, a failing item is modelled only as an aborted insert. Other errors caught by the per-item `except` are not modelled, nor is the outer 500 answer.
  - In the imports, only a failing insert counts a row as skipped.
- Rollback of a transaction that raises half way: with collisions as the only failure, every statement either applies or changes nothing.
- Which conflict resolution SQLite applies is a parameter (`Policy`), not decided.
- The process-wide lock and concurrent requests: every request runs alone.
- Unicode case mapping: `lower`, `title` and `LIKE` fold ASCII letters only. `strip` uses Python's full whitespace set.
- Reading spreadsheets, detecting columns (server.py:527-618) and pandas' `nan` rendering: a row arrives as strings, `None` for an absent column.
- The import's closing device update and `import_log` entry: bookkeeping outside the words table.
- The `analytics_cache` deletions after add, edit, delete word and delete category (api/server.py:309, 375, 406, 675) and after the import (api/server.py:1078): a cache outside the words table, rebuilt on the next read.
- Quiz statistics: the `best_accuracy` column (floating point) and the `quiz_results`/`sync_log` inserts of `save_quiz_result` are out. The `int()` conversions are assumed to succeed.
- The cleanup script's verification scan and progress messages only print.
- Text.NatToString: only states that the rendering is non-empty, not that its digits denote the count.
- WordApi.Add: the contract states only that the key stays unique; its behaviour is stated by `AddSucceedsIff`, `AddCreatesLiveRow` and `AddTwiceRefused`.
- WordApi.Edit: the contract states only that the key stays unique; its behaviour is stated by `EditAnswers`, `EditKeepsIdentity` and `EditIdempotent`.
- WordApi.Delete: the contract states only that the key stays unique; its behaviour is stated by `DeleteOnlyThatRow` and `DeleteIdempotent`.
- Categories.Rename: the contract states only that the key stays unique; its behaviour is stated by `RenameGuardOrder`, `RenameMovesLiveWords` and `DefaultsSurvive`.
- Categories.Remove: the contract states only that the key stays unique; its behaviour is stated by `RemoveMovesToDefault` and `DefaultsSurvive`.
- SyncMerge.Merge: the contract states only that the key stays unique; its behaviour is stated by `BlankWordSkipped`, `OutcomeKind`, `DeleteByServerId`, `DeleteByWord`, `ResyncOverwritesHead`, `FirstEditUnderReplace`, `FirstEditUnderAbort`, `EditOfEditedHead`, `EditWithoutHead`, `EditNamingItsOwnHead`, `CreateWithoutHead` and `MergeEvolves`.
- SyncMerge.WriteWord: the contract states only that the key stays unique; its behaviour is stated by the same lemmas, which go through it, and by `WriteWordEvolves`.
- SyncMerge.EditPrelude: the contract states only that the key stays unique; its effect is stated by `FirstEditUnderAbort`, `EditNamingItsOwnHead` and `WriteEvolves`.
- ExcelImport.ImportOne: the contract states only that the key stays unique; its behaviour is stated by `BlankRowSkipped`, `ExistingWordRefreshed`, `NewWordInserted` and `CategoryVariants`.
