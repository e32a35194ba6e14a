# TransFlow translation manager — a Dafny model

TransFlow keeps translation entries in SQLite databases. Each entry is an
english text with an optional key and tag, plus one text per language from a
fixed catalog of 29 languages. A Flask backend serves the routes. A React
dashboard lists, filters, searches and edits the entries. This project models
both sides as pure functions over immutable values and proves what they
promise.

- `base.dfy`: `Option`, the route `Reply` (a body, or a status and reason)
  and Python truthiness.
- `text.dfy`: Python `strip`/`isspace` and JavaScript `trim`, substring
  search, and the code-point order that `ORDER BY name` uses.
- `seqs.dfy`: order-preserving filter, count, reverse and subsequence.
- `catalog.dfy`: the `LANGUAGES` catalog and its display names.
- `store.dfy`: one database. It holds the `english` rows, the per-language
  tables, the tags, the activation flags and the operation log. It also has
  the schema initialiser and the activation and log helpers.
- `translations.dfy`, `tags.dfy`, `languages.dfy`, `export.dfy`: the routes
  on one database. Each route maps a database and request to the new
  database and a reply.
- `server.dfy`: the database directory. It covers current-database
  resolution, creating and switching databases, and the dispatcher that
  serves every request.
- `dashboard.dfy`: the dashboard's list state. It covers fetch with append
  or replace, load-more, search, the tag handlers and the database switch.
- `view.dfy`: the translation panel's helpers. These are the expanded-card
  set, the key filter and its counts, the log labels, the language chips and
  the inline tag input.
- `validators.dfy`: the form rules of the panel, written as regular
  languages.
- `locale.dfy`: the UI locale context.

Inputs that the code reads from outside are parameters of the model:
- the clock, as `now`;
- the server replies that reach the client;
- the browser's stored locale;
- the localized message table, as `message`.

## Model

| member | source | states |
|---|---|---|
| Store.InitStore | backend/models/database.py:144-208 | initialising creates every missing catalog activation row as active and every missing translation table (without a `translation_key` column); it never touches existing rows, tables, records, tags or logs |
| Store.InitStoreIdempotent | backend/models/database.py:88-93 | initialising twice equals initialising once; on a valid database it keeps every stored activation flag (INSERT OR IGNORE) |
| Store.FreshIsValid | backend/models/database.py:144-208 | a freshly created and initialised database is valid, empty, and has every catalog language active |
| Store.SetActivation | backend/models/database.py:121-139 | only the named language's flag changes, and it becomes `active`; a language without a row leaves the database unchanged |
| Store.ActiveLanguages | backend/routes/languages.py:22-25 | the active languages are exactly the catalog languages whose flag is on or absent, in catalog order |
| Store.EnglishHeadsActiveLanguages | backend/routes/languages.py:22-25 | while english is active it is the first active language and appears nowhere else |
| Store.AddLog | backend/models/database.py:210-221 | exactly one entry is appended with the given type, count, description and time; earlier entries are unchanged |
| Store.GetLogs | backend/models/database.py:223-233 | returns the newest entries first, `min(limit, n)` of them, and all of them for a negative limit |
| Store.GetLogsNewestFirst | backend/models/database.py:228-233 | when dates follow insertion order, the listing is ordered by date descending |
| Store.AddLogChronological | backend/models/database.py:215-218 | logging at a time no earlier than the last entry keeps the log chronological |
| Catalog.CatalogShape | backend/models/database.py:7-13 | the catalog has 29 distinct languages with english first, and the name table covers exactly the catalog |
| Text.Sort | backend/routes/tags.py:21 | `ORDER BY name` yields a sorted permutation of the rows |
| Translations.TagFilter | backend/routes/translations.py:32-34 | a tag filters only when present, non-empty and not 'all' |
| Translations.Ranked | backend/routes/translations.py:39-47 | holds exactly the records passing the tag filter, with length equal to the COUNT, ids strictly descending |
| Translations.PageEnd | backend/routes/translations.py:17 | the page is the slice from offset `(page-1)*limit` (clamped to 0..n) of at most `limit` records; a negative limit means no limit |
| Translations.HasMoreExact | backend/routes/translations.py:98 | for page >= 1 and limit >= 0, `page*limit < total` holds exactly when the page stops before the last record |
| Translations.ItemOf | backend/routes/translations.py:53-91 | an item's translations map has exactly the active languages; english maps to the record's text and a missing row to null; a requested language present in the map narrows it to that entry |
| Translations.ListTranslations | backend/routes/translations.py:9-113 | a valid database always answers; the page holds the ranked records from the offset, the total is the filtered count and `hasMore` is `page*limit < total` |
| Translations.Search | backend/routes/translations.py:246-300 | an empty query is refused with 400; otherwise all tag-filtered records whose text or key contains the query, unpaged, id descending |
| Translations.SearchResultsAreRankedHits | backend/routes/translations.py:261-275 | search results are a subsequence of the listing holding every matching record, ids strictly descending |
| Translations.Add | backend/routes/translations.py:115-157 | empty english gives 400 with no change; success appends one record with the next id, writes only non-empty non-english texts and logs one '新增' entry; a failure changes nothing |
| Translations.AddStoresOnlyNonEmptyTranslations | backend/routes/translations.py:140-141 | english and empty or null texts never reach a language table |
| Translations.Update | backend/routes/translations.py:159-213 | empty english gives 400; success rewrites exactly the record with that id, writes every supplied non-english entry (insert or overwrite) and logs one '更新' entry |
| Translations.Delete | backend/routes/translations.py:216-243 | a missing id gives 404 with no log entry; an existing id always succeeds, exactly that record goes and one '删除' entry is logged |
| Translations.AddAsWrittenAgainstAdd | backend/routes/translations.py:142-145 | as written, add fails with a storage error and no change when a target table lacks the key column; with the column present it equals the corrected add |
| Translations.UpdateAsWrittenAgainstUpdate | backend/routes/translations.py:192-202 | as written, update fails the same way when a target table lacks the key column; with the column present it equals the corrected update |
| Translations.UpdateUnallocatedIdPreloadsRow | backend/routes/translations.py:176-202 | a PUT of the id the next add will take succeeds, changes no record, and leaves a language row for that id |
| Translations.FreshChineseAdd | backend/models/database.py:170-180 | on a freshly initialised database, adding an entry with a chinese text fails as written and succeeds as corrected |
| Translations.AddPreservesValid | backend/routes/translations.py:115-157 | add keeps the database invariant (increasing ids, unique tags, english active, tables for active languages) |
| Translations.UpdatePreservesValid | backend/routes/translations.py:159-213 | update keeps the database invariant |
| Translations.DeletePreservesValid | backend/routes/translations.py:216-243 | delete keeps the database invariant |
| Tags.GetTags | backend/routes/tags.py:9-32 | the tag listing is sorted ascending and holds exactly the stored tags |
| Tags.CreateTag | backend/routes/tags.py:35-68 | empty and existing names give 400 with no change; success appends exactly one tag and one '新增标签' entry with count 1 |
| Tags.TagInfo | backend/routes/tags.py:84-85 | the count is the number of records carrying the tag; it is zero exactly when none carry it |
| Tags.DeleteTag | backend/routes/tags.py:98-127 | always succeeds; the tag goes; exactly the records carrying it lose it; the log counts them as they were before clearing |
| Tags.DeleteTagClearsAll | backend/routes/tags.py:110-113 | after a delete no record carries the tag |
| Tags.CreateTagPreservesValid | backend/routes/tags.py:49-55 | create keeps tag names unique |
| Tags.DeleteTagPreservesValid | backend/routes/tags.py:106-113 | delete keeps the database invariant |
| Languages.GetLanguages | backend/routes/languages.py:9-60 | the active catalog languages as a subsequence of the catalog (so in catalog order, each once), english first while active; under every catalog language, active or not, the same two whole name tables (chinese and english display names of all 29 languages) |
| Languages.ListedNamesAgreeWithCatalog | backend/routes/languages.py:22-51 | whichever catalog language one looks under, the listing gives every catalog code the catalog's chinese and english name |
| Languages.Remove | backend/routes/languages.py:63-100 | empty and english are refused with 400; otherwise the table is dropped and the language is inactive; records, tags, log, next id and the set of flagged languages stay |
| Languages.ToggleAsWritten | backend/routes/languages.py:103-151 | the statements the route runs as written: empty and the exact string "english" are refused; otherwise the table named is the request's name as SQLite resolves it (ASCII case folded), the flag row is the exact request string, and both create and flag follow `active` (default true) |
| Languages.ToggleIntended | backend/routes/languages.py:103-151 | the corrected statements: empty and every ASCII spelling of english are refused; otherwise table and flag are the same folded name, never `english` |
| Languages.Apply | backend/routes/languages.py:118-151 | running the statements on a translation table: create adds an empty table with the key column only when missing, drop removes it, the flag follows `on` for a flagged language, and records, tags, log, next id and the set of flagged languages stay |
| Languages.Toggle | backend/routes/languages.py:103-159 | corrected route: empty and any spelling of english are refused; otherwise, for the folded name, the flag becomes `active` (default true); switching on creates a table with the key column if missing; switching off drops it; records are kept on every request, and tags, log, next id and the set of flagged languages stay |
| Languages.ToggleAsWrittenDropsRecords | backend/routes/languages.py:113-144 | as written, "English" with active false passes the guard and its DROP names the `english` record table while its flag names another row; the corrected route refuses it |
| Languages.ToggleAsWrittenBreaksValid | backend/routes/languages.py:118-151 | as written, "Chinese" off in a valid database where chinese is active drops the `chinese` table but flags no existing row, leaving an active language without a table |
| Languages.FreshHasNoCaseVariantRow | backend/models/database.py:72-95 | a fresh database is valid, has chinese active and has no activation row spelled "Chinese", so the previous lemma applies to it |
| Languages.CatalogCodeFolded | backend/models/database.py:7-13 | every catalog code is already lower case, so folding leaves it unchanged |
| Languages.EnglishStaysActive | backend/routes/languages.py:72-73 | neither remove nor the corrected toggle can deactivate english or change the records, and the corrected toggle never names the `english` table |
| Languages.ToggleOffOnLosesTranslations | backend/routes/languages.py:118-148 | switching a language off and on leaves its (folded) table empty |
| Languages.RemovePreservesValid | backend/routes/languages.py:63-100 | remove keeps the database invariant |
| Languages.TogglePreservesValid | backend/routes/languages.py:103-159 | toggle keeps the database invariant |
| Export.Scan | backend/routes/export.py:39-67 | `total` counts the rows, `exported` the rows with non-blank translation and key, `with_key == exported <= total`, and the map has at most `exported` keys |
| Export.ScanKeys | backend/routes/export.py:53-59 | a key is exported exactly when some exportable row carries it |
| Export.ScanLastWins | backend/routes/export.py:44-59 | for a duplicated key the translation of the last exportable row (highest id) is exported |
| Export.ExportRows | backend/routes/export.py:25-51 | one row per record in id order carrying the record's key; english exports the record's text; any other language the text of the record's row in its table, NULL when the row or the table is missing |
| Export.ExportLanguage | backend/routes/export.py:9-76 | a non-catalog language and an inactive one are refused with 400; a valid database answers every active one with the scan of its rows |
| Export.ScanSkipsKeyless | backend/routes/export.py:107-109 | dropping keyless rows before the scan changes nothing |
| Export.ExportAll | backend/routes/export.py:79-136 | a valid database answers; the map has exactly the active languages in catalog order, each the scan of its keyed rows |
| Export.BulkMatchesSingle | backend/routes/export.py:100-125 | for every active language the bulk export equals that language's single export |
| Server.Normalize | backend/models/database.py:37-41 | the result ends in ".db"; a name ending in ".db" is kept, any other gets ".db" appended |
| Server.NormalizeIdempotent | backend/models/database.py:38-39 | normalising twice equals normalising once |
| Server.Available | backend/models/database.py:43-49 | lists exactly the existing files not starting with a dot, in directory order |
| Server.Boot | backend/app.py:18-20 | start-up initialises `default.db`, creating it when missing, and makes it current |
| Server.BootValid | backend/app.py:18-20 | start-up keeps a valid directory valid |
| Server.CurrentDb | backend/models/database.py:20-35 | an existing current database is kept; otherwise the first listed one; otherwise `default.db` is created and initialised; afterwards the current database exists |
| Server.CurrentDbValid | backend/models/database.py:20-35 | resolving the current database keeps the directory valid |
| Server.GetDatabases | backend/routes/databases.py:9-26 | the result is exactly the listed files plus the resolved current database, which is always included |
| Server.NameAcceptedMeaning | backend/routes/databases.py:39-40 | a name is accepted exactly when it consists of letters, digits, '_' and '.', with at least one letter or digit |
| Server.CreateDatabase | backend/routes/databases.py:29-60 | empty, malformed and existing names give 400 with nothing changed; success adds the normalised file, initialised, with one log entry, and keeps the current database |
| Server.HiddenDatabaseUnlisted | backend/models/database.py:48-54 | creating ".x" succeeds but ".x.db" is never listed |
| Server.SwitchDatabase | backend/routes/databases.py:63-86 | empty gives 400; a name not exactly in the listing gives 404; success makes that database current |
| Server.SwitchToListed | backend/routes/databases.py:73-78 | in a valid directory switching to a listed name makes exactly that file current |
| Server.SwitchBack | backend/routes/databases.py:63-86 | switching to a listed database and back restores the server |
| Server.Route | backend/routes/translations.py:9-300 | read-only routes never change the database, and a failed route leaves it unchanged |
| Server.RoutePreservesValid | backend/models/database.py:144-208 | every route keeps a valid database valid |
| Server.EarlyRefusalMatchesRoute | backend/routes/translations.py:124-127 | a request refused before `get_current_db` (empty english, query, tag name or language, english removed or toggled) gets from the route itself the same 400 on any database, which stays unchanged |
| Server.OnCurrent | backend/models/database.py:20-35 | a request refused on its face leaves the server as it was; any other runs on the resolved current database, and every other database is untouched |
| Server.OnCurrentRepliesAsRoute | backend/routes/tags.py:41-44 | answering before resolving the current database never changes the reply: it is the route's reply on the resolved database |
| Server.Handle | backend/routes/databases.py:9-86 | no database ever disappears; the listing resolves the current database, create and switch act on the directory as it is, every other request runs on the current database |
| Server.HandlePreservesValid | backend/routes/databases.py:9-101 | every request keeps the server valid; an existing current database still exists afterwards, and the listing and every request reaching `get_current_db` leave one that exists |
| Server.CreateKeepsMissingCurrent | backend/routes/databases.py:29-60 | creating `x` while the current file is missing leaves it missing; the next resolution moves to `x.db` and never creates `default.db` |
| Server.CreateDatabasePreservesValid | backend/routes/databases.py:42-57 | creating a database keeps the directory valid and the current database unchanged |
| Server.SwitchDatabasePreservesValid | backend/routes/databases.py:69-78 | switching keeps the directory valid; afterwards the current database exists if it existed before or the switch succeeded |
| Server.EnglishFirstEverywhere | backend/routes/languages.py:22-25 | in a valid server every database lists english first |
| Dashboard.TagParamAgreesWithServer | src/components/Dashboard/Dashboard.js:74-76 | omitting 'all' filters exactly as sending it would |
| Dashboard.BeginFetch | src/components/Dashboard/Dashboard.js:66-70 | an append raises `loadingMore`; a replace raises `loading` |
| Dashboard.FinishFetch | src/components/Dashboard/Dashboard.js:84-102 | an append concatenates the page after the list and a replace swaps it; pagination is taken verbatim; a failure keeps the list; both flags end down |
| Dashboard.LoadMoreRequest | src/components/Dashboard/Dashboard.js:178-182 | a request for page `currentPage+1` is made exactly when `hasMore && !loadingMore` |
| Dashboard.LoadMore | src/components/Dashboard/Dashboard.js:178-182 | without a request nothing changes; otherwise it is the append fetch of the next page |
| Dashboard.FirstPageSynced | src/components/Dashboard/Dashboard.js:65-103 | a page-1 replace fetch from a valid database leaves the list equal to the first page of the listing, with matching pagination |
| Dashboard.LoadMoreKeepsSynced | src/components/Dashboard/Dashboard.js:87-95 | loading more keeps the list equal to the first pages of the listing, with nothing skipped or repeated |
| Dashboard.ExhaustedHoldsAll | src/components/Dashboard/Dashboard.js:93-95 | a synced list with `hasMore` false holds every matching record |
| Dashboard.SwitchDatabase | src/components/Dashboard/Dashboard.js:465-488 | a successful switch resets tag, language, tab and search and records the database; a failed switch changes nothing |
| Dashboard.SwitchClearsFilters | src/components/Dashboard/Dashboard.js:474-475 | the next listing after a switch carries no tag and no language |
| Dashboard.AddTag | src/components/Dashboard/Dashboard.js:189-207 | a name already in `tags` sends no request; success refreshes the list; failure changes nothing |
| Dashboard.AddTagCreates | src/components/Dashboard/Dashboard.js:196-199 | a new tag sent from the client is created, and the refreshed list holds it |
| Dashboard.DeleteTagConfirmed | src/components/Dashboard/Dashboard.js:218-231 | after a successful delete a selected deleted tag falls back to 'all', the tag list is reloaded, and the list and pagination are replaced by page 1 of the listing filtered on the tag selected before the reset; a failed delete changes nothing |
| Dashboard.DeleteSelectedTagUnfilters | src/components/Dashboard/Dashboard.js:220-227 | after deleting the selected tag the next listing is unfiltered and the reloaded tag list lacks it, while the reload run by the confirm step itself, still filtered on the deleted tag, shows an empty list with total 0 |
| Dashboard.UnusedTagReloadsEmpty | src/components/Dashboard/Dashboard.js:65-95 | a page-1 reload filtered on a tag no record carries yields no items, total 0 and no further page |
| Dashboard.DeleteOtherTagSynced | src/components/Dashboard/Dashboard.js:218-231 | deleting a tag that is not selected leaves the client showing page 1 of the database after the delete, with the tag gone from the tag list |
| Dashboard.Search | src/components/Dashboard/Dashboard.js:254-280 | a blank query falls back to a page-1 replace fetch; otherwise a successful reply replaces the list and the pagination is untouched |
| Dashboard.SearchNeverEmptyQuery | src/components/Dashboard/Dashboard.js:255-263 | the client never sends a query the server refuses as empty, and a valid database answers it |
| Dashboard.SearchKeepsPagination | src/components/Dashboard/Dashboard.js:272-274 | after a search of a synced list with more pages, load-more still requests the next listing page |
| Dashboard.BilingualName | src/components/Dashboard/Dashboard.js:531-570 | the name for 'en' is the english one, for any other locale the chinese one, and an unknown code comes back unchanged |
| Dashboard.BilingualNameMatchesServer | src/components/Dashboard/Dashboard.js:564-567 | for every catalog code, the dashboard's name in a locale is the one the server's listing gives under any catalog language, from its english table for 'en' and its chinese table otherwise |
| View.ToggleCardExpanded | src/components/Dashboard/TranslationContent/TranslationContent.js:119-127 | exactly the given id flips membership |
| View.ToggleCardTwice | src/components/Dashboard/TranslationContent/TranslationContent.js:119-127 | toggling the same card twice restores the set |
| View.Filtered | src/components/Dashboard/TranslationContent/TranslationContent.js:162-167 | no filter shows everything; 'withKey' shows exactly the keyed records and any other filter the keyless ones, in order |
| View.EntriesWithKey | src/components/Dashboard/TranslationContent/TranslationContent.js:158 | counts the loaded records with a non-blank key, the length of the 'withKey' list |
| View.TotalEntries | src/components/Dashboard/TranslationContent/TranslationContent.js:155 | the server total when non-zero, otherwise the loaded length |
| View.EntriesWithoutKey | src/components/Dashboard/TranslationContent/TranslationContent.js:159 | with the keyed count it adds up to the total |
| View.KeyFiltersPartition | src/components/Dashboard/TranslationContent/TranslationContent.js:162-167 | the two key filters split the loaded list: each record is in exactly one, and the lengths add up |
| View.WithoutKeyExactWhenLoaded | src/components/Dashboard/TranslationContent/TranslationContent.js:155-159 | with everything loaded the keyless count is the length of the 'withoutKey' list |
| View.WithoutKeyCountsUnloaded | src/components/Dashboard/TranslationContent/TranslationContent.js:155-159 | with pages left to load the keyless count exceeds that list by exactly the unloaded records |
| View.SyncedExhaustedStatsExact | src/components/Dashboard/TranslationContent/TranslationContent.js:155-159 | for a dashboard synced to the end the keyless statistic is exact |
| View.LogMessageKey | src/components/Dashboard/TranslationContent/TranslationContent.js:145-151 | exactly the five operation types the backend logs have a message |
| View.TranslateLogOperation | src/components/Dashboard/TranslationContent/TranslationContent.js:144-153 | a known type shows its non-empty message; any other type is shown unchanged |
| View.LogLabelsDistinct | src/components/Dashboard/TranslationContent/TranslationContent.js:145-151 | different operation types have different message keys, and so different labels whenever the locale gives the five keys distinct non-empty messages |
| View.ChipClick | src/components/Dashboard/TranslationContent/TranslationContent.js:581-585 | the english chip sends nothing; any other chip asks for the opposite of its state |
| View.ChipClickFlips | src/components/Dashboard/TranslationContent/TranslationContent.js:581-585 | on a valid database a chip click flips exactly its language and english stays active |
| View.AddTagInput | src/components/Dashboard/TranslationContent/TranslationContent.js:748-755 | a blank value sends nothing; otherwise the trimmed, non-empty value |
| View.AddTagInputNeverEmpty | src/components/Dashboard/TranslationContent/TranslationContent.js:750-752 | the server never refuses the inline input as an empty name |
| Validators.DbNameRulesFromPattern | src/components/Dashboard/TranslationContent/TranslationContent.js:1444-1465 | the whitespace and character rules add nothing to the identifier pattern and the length bound |
| Validators.MatchIdent | src/components/Dashboard/TranslationContent/TranslationContent.js:1377 | returns true exactly for strings matching `^[a-zA-Z_][a-zA-Z0-9_]*$` |
| Validators.MatchTagName | src/components/Dashboard/TranslationContent/TranslationContent.js:1508-1515 | returns true exactly for 1 to 20 characters from `[a-zA-Z0-9_]` and U+4E00..U+9FA5 |
| Validators.DbNameClientAgainstServer | src/components/Dashboard/TranslationContent/TranslationContent.js:1444-1465 | a client-valid name passes the server check exactly when it is not all underscores, and becomes a visible ".db" file |
| Validators.UnderscoreNameRefused | backend/routes/databases.py:39-40 | "_" passes every client rule but the server refuses it |
| Validators.FormsPassEmptinessChecks | src/components/Dashboard/TranslationContent/TranslationContent.js:1363 | the server never refuses client-valid english texts or tag names as empty |
| Locale.InitialLocale | src/contexts/LanguageContext.js:9-12 | the stored value when present and non-empty, otherwise 'en' |
| Locale.Mount | src/contexts/LanguageContext.js:9-17 | after mounting, the stored value is the initial locale |
| Locale.Toggle | src/contexts/LanguageContext.js:20-22 | 'en' becomes 'zh'; any other locale becomes 'en'; the new locale is stored |
| Locale.Change | src/contexts/LanguageContext.js:25-27 | the locale becomes exactly the given value and is stored |
| Locale.ToggleTwice | src/contexts/LanguageContext.js:20-22 | toggling twice returns to 'en' or 'zh'; from any other locale it lands on 'zh' |
| Locale.ReloadKeepsLocale | src/contexts/LanguageContext.js:9-17 | a reload restores a stored non-empty locale |

## Left out

- SQLite itself: SQL text, table names built from strings (and their injection risk), `CURRENT_TIMESTAMP` values and transactions. Tables are maps, and a failed write rolls back as a whole.
- Languages.Remove, Languages.Toggle: their Ok clauses ("nothing else changes") hold only for language tables. Both routes drop whatever table the request names (backend/routes/languages.py:80-86, 144), and the model has no place for the application's own tables. Naming `tags` drops the tag table, so the tag routes answer 500 afterwards. Naming `operation_logs` drops the log, so every later write that logs answers 500. Naming `language_activation` drops the flags; `set_language_activation_status` then re-creates the table with every catalog language active (backend/models/database.py:120-131, 72-95), so earlier deactivations are lost. Naming `sqlite_sequence` makes the DROP fail, so the route answers 500. `POST /api/init` re-creates the dropped `tags` and `operation_logs` tables empty (backend/routes/databases.py:88-93).
- Languages.Remove, Languages.Toggle: names that differ from a catalog code only in case. SQLite resolves table names ignoring ASCII case, but the flag UPDATE and the `sqlite_master` check compare exactly. The model keeps language tables under their folded name, so it does not record the spelling a table was created under. Remove compares the name exactly, as the source does: for "Chinese" the `sqlite_master` lookup finds no table and the UPDATE no flag row, so nothing changes. The corrected toggle folds the name once for the guard, the table and the flag.
- Translations.Add, Translations.Update: a translation key that differs from a catalog code only in case (such as "Chinese") is a write to a missing table in the model, so the route answers 500. SQLite writes it to the `chinese` table. The dashboard only sends catalog codes, which are lower case (`Languages.CatalogCodeFolded`).
- `LIKE` case folding and its `%`/`_` wildcards: search is plain substring containment.
- Duplicate rows in a language table for one record: a table holds at most one row per record id. The source can hold two. A PUT to an id not yet allocated changes no english row but inserts a language row for that id (`Translations.UpdateUnallocatedIdPreloadsRow`), and the POST that takes the id next inserts a second row where the model overwrites the first. From then on the listing (`Translations.ListTranslations`) shows the older row, and the single-language export (`Export.ExportLanguage`) counts the record twice in `total`, while the model shows and counts the newer row once.
- BulkMatchesSingle: holds for tables with one row per record id only; after the PUT-then-POST path above the bulk export's `fetchone` reads one of two rows while the single export's LEFT JOIN scans both, so the two can differ in the source.
- The value written into a `translation_key` column, since nothing reads it back.
- `Server.NameAccepted`: Python's `isalnum` is modelled for ASCII letters and digits only; the server also accepts other Unicode letters and digits.
- The filesystem: the directory is a sequence of names in creation order. `glob` order is unspecified, so "first available database" is the first in that order. `makedirs` is left out.
- A database whose activation table is missing is not modelled on its own. Every route first creates that table with all rows active, which `Store.InitStore` covers.
- `Store.GetLogs`: entries with the same `operation_date` are returned newest insertion first; SQLite leaves that tie order open.
- HTTP and JSON: malformed bodies, non-integer `page`/`limit`, and exceptions other than a write to a missing or key-less table. Status codes are kept only as the `Status` of a failure. In the toggle route `active` is an `Option<bool>`, where `None` means the field is absent and so true. An explicit JSON `null` is not modelled: the source reads it as false, drops the table and stores a NULL flag (backend/routes/languages.py:108, 118, 151).
- Concurrency and React scheduling: `Promise.all` fan-outs, overlapping fetches, and effects that refetch. Among these, the delete-tag reload runs with the `currentTag` captured before the reset (modelled, see `Dashboard.DeleteSelectedTagUnfilters`); the further fetch that the effect on the new `currentTag` triggers afterwards is not.
- Browser effects: toasts, `window.scrollTo`, file download through Blob URLs, and `localStorage` (modelled as the `saved` field).
- The client export flow and the other panel handlers (create language, logs panel) are not modelled; their server side is covered by the export and language routes.
- The `maxLength` of input fields is modelled as a length bound on the accepted value.

## Findings

| source | as written | input that shows it | evidently intended | confidence | as-written member | corrected member |
|---|---|---|---|---|---|---|
| backend/routes/translations.py:142-145 (with backend/models/database.py:170-180) | add inserts into the `translation_key` column of each language table, but `init_db` creates those tables without that column, so sqlite raises and the route answers 500 | a fresh database and a POST with english "hello" and chinese "你好" | every non-empty, non-english text is stored whatever the table's schema | high (not executed) | Translations.AddAsWrittenAgainstAdd, Translations.FreshChineseAdd | Translations.Add |
| backend/routes/translations.py:192-202 | update writes `translation_key` in both its UPDATE and its INSERT, so it fails the same way on tables `init_db` created | a fresh database and a PUT of an existing id with any non-english entry | every supplied non-english entry is written | high (not executed) | Translations.UpdateAsWrittenAgainstUpdate | Translations.Update |
| backend/routes/languages.py:113 (with 144 and backend/models/database.py:135-139) | the toggle guard compares the name exactly with "english", but SQLite resolves the DROP's table name ignoring ASCII case, and the flag UPDATE matches the exact string | POST /api/languages/toggle with {"language": "English", "active": false} drops the `english` table holding every record, updates no flag and answers 200; afterwards listing, search, add and export answer 500 | every spelling of english is refused, and one folded name is used for the guard, the table and the flag | high (not executed) | Languages.ToggleAsWrittenDropsRecords, Languages.ToggleAsWrittenBreaksValid | Languages.Toggle, Languages.EnglishStaysActive |
