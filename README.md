# Fantamatto bot — a verified model of its store and conversation state

The bot runs a sighting game in Telegram chats:
- Players register with a password.
- A player reports a sighting of one of the *matti* (targets) from the admin's catalog, then sends a photo of it.
- Each sighting earns the target's points, and the report is broadcast to every registered player.
- A leaderboard, personal ranks and two photo galleries read the results.
- The admin uploads the catalog as a text file and can delete sightings.

This project models the core of `bot.py` in Dafny:
- the three SQLite tables (`users`, `matti`, `sightings`) as the fields of a class `Store.Db`, together with the helpers that change them;
- the catalog file parser, with the loop that builds its result;
- the read-only queries: registered users, leaderboard, rank, catalog listing, the target gallery, and the user gallery with its grouping loop;
- the per-chat pending state of the handlers, as the fields of a class `Handlers.Bot`;
- the broadcast loop that follows every report, and its unreachable-recipient check.

The central invariant is `Store.Consistent`:
- every user's `total_points` equals the sum of the points of that user's sightings;
- sightings belong to known users;
- sighting ids and timestamps grow with insertion and are never reused;
- catalog names are unique.

Adding, deleting, reloading and unregistering all preserve it.

Files, one module each:
- `wrappers.dfy`: `Option`.
- `seqs.dfy`: small sequence facts used by the loops.
- `text.dfy`: `strip()`, `lower()`, `in` on strings, `int()` and `str()`, and SQLite's BINARY collation.
- `ordering.dfy`: `ORDER BY` as a sort of table keys under a strict total order.
- `catalog.dfy`: the catalog file parser.
- `store.dfy`: the tables and their helpers.
- `gallery.dfy`: the grouping of `get_user_gallery`.
- `queries.dfy`: the read-only queries.
- `handlers.dfy`: the handlers' pending state and the broadcast.

Decisions taken in the model:
- **Timestamps.** `datetime.utcnow()` is modelled as a counter, `Db.clock`. The counter increases with each sighting, so "newest first" is a strict order.
- **Foreign keys.** SQLite does not enforce foreign keys unless `PRAGMA foreign_keys = ON` is in force, and the only `ON` (bot.py:178) runs inside the reload's open transaction, where SQLite ignores it. The model therefore lets a sighting name a target that is no longer in the catalog: a choice made before a reload and completed after it records one. The user gallery joins `matti`, so it drops such a sighting. The target gallery joins only `users`, so it would list one. It is never asked to, because `callback_matto_mode` first looks the target up in the catalog (bot.py:662-671), and AUTOINCREMENT never hands an old id to a new catalog entry. The model states both queries as written.
- **Tie-breaks.** Every `ORDER BY` is completed with the table key as a last tie-break, because SQLite leaves the order of ties unspecified. `get_registered_chat_ids` has no `ORDER BY`; it is modelled in chat-id (rowid) order.
- **Text.** `strip()`, `lower()` and `isdigit()` are modelled on ASCII.
- **`int()`.** It accepts an optional sign followed by ASCII digits, at most 4300 of them. That is CPython's default `int_max_str_digits`; a longer literal raises ValueError. Points may be negative, and no contract claims totals are non-negative.

## Model

| member | source | states |
|---|---|---|
| Text.Strip | bot.py:143 | Stripping never makes a line longer. |
| Text.StripShape | bot.py:143 | The result is the slice of the line left after removing leading and trailing whitespace. What was removed is all whitespace, and the result neither starts nor ends with whitespace. |
| Text.StripIdempotent | bot.py:143 | Stripping a stripped line changes nothing. |
| Text.StripEmptyIffAllSpace | bot.py:143 | A line is dropped as blank exactly when it is all whitespace. |
| Text.ParseInt | bot.py:155 | `int()` succeeds exactly on an optional sign followed by one to 4300 digits. Its value has the digits' decimal value as magnitude, and it is negative only after a `-`. |
| Text.ParseShowInt | bot.py:155 | `int(str(n)) == n` for every integer of at most 4300 digits, negative ones included. A longer one raises. |
| Text.Lower | bot.py:865 | `lower()` keeps the length and lower-cases each character on its own. |
| Text.ContainsIff | bot.py:866 | `kw in text` holds exactly when `kw` occurs at some position of `text`. |
| Text.StrLessIsStrictTotalOrder | bot.py:99 | The text collation used by `ORDER BY username` and `ORDER BY name` is irreflexive, transitive and total. |
| Ordering.SortedKeys | bot.py:99 | An `ORDER BY` result lists every selected key exactly once, each before every key after it. |
| Catalog.SplitAtComma | bot.py:149-155 | `split(',', 1)` fails exactly when the line has no comma. Otherwise the line is the part before the first comma, a comma, and the rest. |
| Catalog.ParseLine | bot.py:149-166 | A line yields an entry exactly when it has a comma and the stripped text after the first comma is an integer `int()` reads; otherwise it is skipped. The entry's name is the stripped text before the first comma, so it holds no comma, and its points are that integer. |
| Catalog.ParseRender | bot.py:149-165 | Every entry with a clean name, written as `name,points`, parses back to itself. If its points have more than 4300 digits, the line is skipped instead. |
| Catalog.CandidatesFromLines | bot.py:148-166 | An entry is a candidate exactly when some line parses to it, so a line `ParseLine` skips (no comma, or no integer after the first comma) yields nothing. |
| Catalog.CandidatesFromFile | bot.py:143-166 | For a file as read, an entry is a candidate exactly when some non-blank line of the file, stripped, parses to it. |
| Catalog.FirstByNameSpec | bot.py:158-163 | First occurrence wins: the result has each name of the input once, as its first entry, in order of first occurrence. |
| Catalog.ParsedIsFirstOfEachName | bot.py:141-166 | What the parser returns for a file is the first well-formed entry of every name, in input order. |
| Catalog.ParsedNamesDistinct | bot.py:146-163 | The parsed names are pairwise distinct. |
| Catalog.ParsedRenderAll | bot.py:141-166 | Reading back a file written from readable entries (a clean name, points of at most 4300 digits) gives the first entry of every name. |
| Catalog.LaterDuplicateDropped | bot.py:158-160 | Of two lines with the same name, the later one is dropped. |
| Catalog.NonBlank | bot.py:143 | The kept lines are at most the file's lines. Each is non-empty and already stripped. |
| Catalog.NonBlankOfLine | bot.py:143 | A single line is kept stripped, or dropped when it is blank. |
| Catalog.NonBlankAppend | bot.py:143 | Filtering works line by line, so the kept lines follow file order: those of `a + b` are those of `a` followed by those of `b`. |
| Catalog.NonBlankMembers | bot.py:143 | A line is kept exactly when it is the stripped form of some non-blank line of the file. |
| Catalog.ParseCatalog | bot.py:143-166 | The loop that grows `parsed` and `seen_names` returns exactly the parser's specification. |
| Store.PointsOfRemoveAt | bot.py:238-244 | Removing a sighting takes its points off its owner's sum and off nobody else's. |
| Store.Find | bot.py:229-235 | The lookup by id finds nothing exactly when no sighting has that id. A hit has that id. |
| Store.Numbered | bot.py:179-182 | The reload's inserts give the k-th parsed entry the id `base + k`, and there are no other ids. |
| Store.Credit | bot.py:115-118 | `UPDATE users SET total_points = total_points ± ?` keeps every row. The one user's total moves by exactly the amount, the rest of that row is unchanged, and every other row is unchanged. |
| Store.AddKeepsConsistent | bot.py:108-119 | A new sighting with the next id and time, credited to its owner, keeps the tables consistent. |
| Store.RemoveKeepsConsistent | bot.py:226-247 | Removing a sighting and debiting its owner keeps the tables consistent. |
| Store.AddThenDeleteRestores | bot.py:108-119 | A sighting just added is found at the end. Deleting it restores the table and its owner's total. |
| Store.ZeroTotals | bot.py:175 | Every user row is kept, with only its total set to zero. |
| Store.ReloadConsistent | bot.py:168-183 | After the reload the tables are consistent: no sightings, no points, and a catalog with unique names under fresh ids. |
| Store.InsertedPrefix | bot.py:179-182 | What `executemany` inserts before it raises: the longest prefix of the entries whose points fit a 64-bit INTEGER. Anything after it starts with an entry that does not fit. |
| Store.InsertedAllIff | bot.py:179-182 | Every entry is inserted exactly when every entry's points fit in 64 bits. |
| Store.ReloadedNamesDistinct | bot.py:146-182 | The entries a reload inserts have pairwise distinct names, so the UNIQUE constraint on `matti.name` holds. |
| Store.InsertCatalog | bot.py:179-182 | The `executemany` loop inserts, in order and under consecutive ids, exactly the entries up to the first one outside 64 bits. The id counter advances by their number, and `complete` holds exactly when every entry was inserted. |
| Store.Db.constructor | bot.py:41-72 | A fresh database has three empty, consistent tables. |
| Store.Db.RegisterUser | bot.py:75-81 | INSERT OR IGNORE: an existing row is left exactly as it is. A new row starts unregistered with no points. |
| Store.Db.SetRegistered | bot.py:83-89 | Only that user's flag changes. A missing user is a no-op. |
| Store.Db.UnregisterUser | bot.py:91-94 | Only that user's flag is cleared. |
| Store.Db.AddSighting | bot.py:108-119 | One sighting is appended with the next id and the current time. Only its owner's total rises, by exactly the points. |
| Store.Db.DeleteSighting | bot.py:226-247 | An unknown id reports false and changes nothing. A known id removes exactly that sighting, lowers its owner's total by its points, and reports true. |
| Store.Db.LoadMatti | bot.py:141-185 | Sightings are emptied and every total is zero, with the rows otherwise unchanged. The catalog becomes the parsed entries up to the first one outside 64 bits, under fresh ids. The count is the number of parsed entries when all of them fit. Otherwise there is no count and the half reload stays. |
| Queries.RegisteredChatIds | bot.py:102-106 | Exactly the registered users' chat ids, each once. |
| Queries.RegisteredContacts | bot.py:96-100 | Row `i` holds the chat id, username and first name of the `i`-th user in username order. |
| Queries.RegisteredContactsMembers | bot.py:96-100 | Every registered user is listed, and nobody else. |
| Queries.RegisteredContactsSorted | bot.py:96-100 | No user is listed twice, and the list is ordered by username. |
| Queries.StandingsSpec | bot.py:121-123 | The leaderboard lists every registered user once, with their own points, in non-increasing order of points. |
| Queries.Standings | bot.py:121-123 | Row `i` holds the names and total of the `i`-th user in leaderboard order. |
| Queries.Leaderboard | bot.py:121-126 | A positive limit gives the first `limit` rows of the full board. `None`, 0 or a negative limit gives all of them. |
| Queries.RankAndPoints | bot.py:128-139 | No result for a missing or unregistered user. Otherwise the user's points and a rank of at least 1. |
| Queries.SameTotalSameRank | bot.py:133-135 | Users with equal totals share a rank. |
| Queries.MorePointsBetterRank | bot.py:133-135 | More points gives a strictly smaller rank. |
| Queries.RankAtMostRegistered | bot.py:133-136 | A rank never exceeds the number of registered users. |
| Queries.TieSkipsNextRank | bot.py:128-136 | Ranks are competition ranks: totals 50, 50 and 30 give ranks 1, 1 and 3. |
| Queries.CatalogListing | bot.py:187-191 | Row `i` holds the id, name and points of the `i`-th entry in listing order. |
| Queries.CatalogListingMembers | bot.py:187-191 | Every catalog entry is listed with its own name and points, and nothing else. |
| Queries.CatalogListingSorted | bot.py:187-191 | No entry is listed twice. The order is points descending, then name ascending among equal points. |
| Queries.GalleryRows | bot.py:206-211 | A user gallery has at most one row per sighting. |
| Queries.GalleryRowsSound | bot.py:206-211 | Every user-gallery row is one of the user's sightings whose target is in the catalog. |
| Queries.GalleryRowsComplete | bot.py:206-211 | Every such sighting has its row. Sightings of targets no longer in the catalog are omitted by the JOIN. |
| Queries.GalleryRowsNewestFirst | bot.py:209 | The rows are newest first. |
| Queries.GalleryRowsPoints | bot.py:206-211 | With no orphaned sighting, the rows' points add up to the user's points from sightings. |
| Queries.MattoGallery | bot.py:193-201 | A target gallery has at most one entry per sighting. |
| Queries.MattoGallerySound | bot.py:193-201 | Every entry of a target's gallery is a sighting of that target by a known user, with that user's names. |
| Queries.MattoGalleryComplete | bot.py:193-201 | Every sighting of the target by a known user is listed. |
| Queries.MattoGalleryNewestFirst | bot.py:199 | A target's gallery is newest first. |
| Queries.UserGallery | bot.py:203-224 | The grouped gallery equals the per-name reference: groups in order of their newest sighting, and each group's count, points and photos those of its rows. |
| Queries.UserGalleryTotal | bot.py:203-224 | With consistent tables and no orphaned sighting, the groups' points add up to the user's `total_points`. |
| Gallery.StatsOf | bot.py:214-222 | A group's count equals the number of its photos. |
| Gallery.GroupByName | bot.py:214-222 | The `defaultdict` loop gives every name its reference counters: count, sum of points, and photos in row order. Names are kept in insertion order. |
| Gallery.NamesInOrderEmpty | bot.py:606-611 | The grouped gallery is empty exactly when the query returned no row. |
| Gallery.GroupPointsTotal | bot.py:214-222 | The groups' points add up to the points of all rows; grouping loses and duplicates nothing. |
| Gallery.RowsNamedNewestFirst | bot.py:215-222 | Within a group the photos keep the query's newest-first order. |
| Handlers.ParseId | bot.py:470-474 | A callback id is accepted exactly when it is a non-empty string of at most 4300 digits. Its value is what `int()` reads. |
| Handlers.ParseIdShowNat | bot.py:470-474 | The ids the bot writes into its buttons read back unchanged, as long as they have at most 4300 digits. |
| Handlers.TextFileName | bot.py:731 | An upload's name is accepted exactly when its last four characters spell `.txt` in any mix of cases. |
| Handlers.IsUnreachableIff | bot.py:865-866 | An API error counts as unreachable exactly when "blocked", "not found" or "deactivated" occurs in its lower-cased text. |
| Handlers.IsUnreachableIgnoresCase | bot.py:865-866 | The check gives the same answer for an error text and its lower-cased form. |
| Handlers.BroadcastMembers | bot.py:860-874 | A recipient is counted as reached exactly when its sends succeeded, and removed exactly when its send failed with an unreachable API error. |
| Handlers.BroadcastAccounting | bot.py:860-874 | Reached and removed recipients together are no more than the recipients. |
| Handlers.Broadcast | bot.py:856-874 | The loop counts the successes and collects the unreachable recipients. It unregisters exactly those, leaving every other table and row as it was. |
| Handlers.ReportedReachAsWritten | bot.py:876-879 | The confirmation as written is the number of users reached minus the removed recipients. |
| Handlers.ReportedReachAsWrittenUndercounts | bot.py:876-879 | With three recipients, one of them blocked, the report reaches two and the reporter is told one. |
| Handlers.ReportedReach | bot.py:876-879 | The corrected count is never negative and never exceeds the recipients minus those removed. It is positive whenever some recipient was reached. |
| Handlers.RecordAndReport | bot.py:843-874 | One sighting is appended with the next id and time, and its owner credited. The report goes to the users registered after the credit, the unreachable ones are unregistered, and the result is the number reached. The user rows and the catalog are otherwise kept. |
| Handlers.Bot.constructor | bot.py:250-255 | The bot starts with no pending state over consistent tables. |
| Handlers.Bot.Start | bot.py:267-295 | The user gets a row if missing. Exactly a user who is not registered is added to the password wait. |
| Handlers.Bot.SubmitPassword | bot.py:297-315 | The stripped text equal to the password ends the wait and registers the user. Anything else changes nothing. |
| Handlers.Bot.ChooseMatto | bot.py:792-827 | A valid id of a catalog target stores a snapshot of its id, name and points for the chat. An invalid or unknown id changes nothing. |
| Handlers.Bot.SubmitPhoto | bot.py:830-879 | Without a pending choice nothing happens. Otherwise the choice is consumed, and `Reported` holds: one sighting recorded with the snapshot's points, the report sent to the users registered after the credit, the unreachable ones unregistered. The result is the number of users reached, which the confirmation as written reduces by the removed ones. |
| Handlers.Bot.SelectUser | bot.py:465-490 | A valid id opens the chat's user-gallery session. |
| Handlers.Bot.SelectMatto | bot.py:492-517 | A valid id opens the chat's target-gallery session. |
| Handlers.Bot.GalleryMode | bot.py:596-649 | No session means expired. An empty gallery keeps the session. Otherwise the grouped gallery is shown, and the session ends exactly when the messages sent outside a `try` went through. |
| Handlers.Bot.MattoMode | bot.py:651-708 | No session means expired. A target missing from the catalog, or one without photos, keeps the session. Otherwise its gallery is shown, and the session ends exactly when the messages sent outside a `try` went through. |
| Handlers.Bot.ManageUser | bot.py:519-573 | A valid id is remembered for the chat, and the user's grouped gallery, or its absence, is shown. |
| Handlers.Bot.AdminDelete | bot.py:575-594 | The id is checked first, then the caller. Only the admin deletes, with `delete_sighting`'s effect. |
| Handlers.Bot.UploadCommand | bot.py:710-722 | Only the admin starts an upload. |
| Handlers.Bot.Document | bot.py:724-754 | Documents are ignored unless the admin is uploading. A document without a file name changes nothing. A name not ending in `.txt` loads nothing, and neither does a file that cannot be read. An entry outside 64 bits leaves the half reload. Each failure ends the upload exactly when its reply went through. A successful load replaces the catalog, ends the upload and returns the count. |

## Left out

- The Telegram API: messages, photos, keyboards, callback answers and Markdown text, including the file fallback for long leaderboards. A handler receives the parts of the update it looks at. What each broadcast send returns is the parameter `outcome`.
- Broadcast: `Delivered` stands for both sends to a recipient succeeding. A recipient whose text arrived but whose photo failed is counted as a failure, as in the source.
- `cmd_me`, `cmd_full_leaderboard`, `cmd_listmatti`, `cmd_report`, `cmd_galleria`, `cmd_gallery_matto`, `cmd_manage_sightings` and `cmd_comandi` only read state and render it. The queries they call are modelled in `Queries`.
- SQLite itself: the connection, commits, the schema text and the lock. Each helper is atomic, and concurrency is not modelled.
- File download, temporary files and UTF-8 decoding around the parser. The parser takes the file's lines, and a failed download or decode is `lines == None` in `Handlers.Bot.Document`.
- Logging and the `atexit` cleanup of the pending maps.
- `Store.Db.AddSighting`: requires the owner to have a row. Without one the source's UPDATE would affect no row, and the handler's later `fetchone()["total_points"]` would fail. In private chats the requirement holds: `cmd_report` sends the target buttons only to a registered user, and rows are never deleted. In a group chat it does not. `cmd_report` sends the buttons to the group (bot.py:758-790), while `callback_matto` files the choice under the id of whoever presses one (bot.py:793-827). A group member without a row can press a button and then send a photo to the bot. The source then commits a sighting whose owner has no row and fails at bot.py:845-849. That path is not modelled.
- `Handlers.Bot.ChooseMatto`: requires the chat to have a row, for the reason above; the group-chat press by a member without a row is not modelled.
- `Handlers.Bot.SubmitPhoto`: returns the number of users the report reached, not the `sent - len(removed)` the source shows the reporter. The count as written is `Handlers.ReportedReachAsWritten`, whose contract ties it to the returned number, and the discrepancy is under Findings.
- `Handlers.Bot.GalleryMode`, `Handlers.Bot.MattoMode`, `Handlers.Bot.Document`: whether a reply sent outside a `try` went through is the parameter `displayed` or `replied`. The exception itself, and the failure of `answer_callback_query`, are not modelled.
- Totals outside 64 bits: SQLite stores an integer sum that leaves the 64-bit range as a REAL, so a total past 2^63 would lose precision. Totals are unbounded integers in the model. Points read from the catalog are checked against 64 bits, as `executemany` checks them.
- Callback ids outside 64 bits: binding such an id to a query raises OverflowError, where the model looks the id up and finds nothing. A digit string longer than 4300 digits passes `isdigit()`, but `int()` raises ValueError, which no callback catches. The model refuses it as an invalid id instead. Every handler ends in the same state either way, and only the reply differs.
- A crash between the half reload and the next commit would leave the reload uncommitted, and SQLite would roll it back. The model has no crashes, so the half reload always stays.
- `Handlers.Bot.SubmitPassword`: requires the chat to be waiting for the password; this is the handler's own message filter. A message without text is not modelled.
- `Handlers.Bot.GalleryMode`, `Handlers.Bot.MattoMode`: the display mode (`text` or `photos`) is not a parameter, because it changes only what is rendered, never the state.
- Handler priority between `handle_password` and the command handlers registered after it is not modelled.
- Timestamps are a strictly increasing counter. Two sightings with the same `utcnow()` value, whose relative order SQLite leaves open, are not modelled.
- Python's `int()` on underscores, surrounding Unicode whitespace or non-ASCII digits, and `str.isdigit()` on non-ASCII digits.

## Findings

| source | as written | input that shows it | evidently intended | confidence | as-written member | corrected member |
|---|---|---|---|---|---|---|
| bot.py:876-879 | The confirmation reports `sent - len(removed)` users. A removed recipient was never counted in `sent`, so it is subtracted from a count it is not part of. | Three registered recipients, the second of whom has blocked the bot: two receive the report and the reporter is told 1. With every recipient blocked, the count is negative. | Report `sent`, the number of users the report reached. | not executed | Handlers.ReportedReachAsWrittenUndercounts | Handlers.ReportedReach |
