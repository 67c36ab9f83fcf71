# Hollow Knight 112% tracker — a verified model of its core

The tracker keeps the 112% checklist of Hollow Knight in a DuckDB table (`hk`).
Players mark items found, browse them with filters, read completion statistics,
group items into sessions, and query the table from a read-only SQL console.
The table is filled by a loader that reads the checklist's markdown table.

This project models two parts of that system in Dafny and proves what each promises.

- **The tracker engine** (`backend/main.py`). The three tables are the fields of one
  `Tracker.Store` object:
  - `items`: the `hk` catalog, held in id order;
  - `sessions`: a map from session id to its row;
  - `members`: the set of `session_items` memberships.

  Each endpoint is a method on the store. It returns its result, or the HTTP error it
  raises (`NotFound` for 404, `BadRequest` for 400). The store keeps one invariant, `Valid()`:
  ids are unique, every membership names an existing session and item, and an item is
  in a session at most once. The statistics and the distinct-value lists are functions
  of the rows (module `Stats`). The item filters are the WHERE clauses `get_items` builds,
  with SQL `LIKE` written out (module `Catalog`). The SQL console is the validation
  `execute_sql` performs before any execution (module `Console`). The database's answer
  to an accepted query is a parameter.
- **The checklist loader** (`scripts/load_checklist.py`), in module `Checklist`:
  - the cell helpers `parse_found`, `extract_url` and `clean_text`;
  - the line loop of `parse_markdown_table`, over the file's lines;
  - the id numbering of `create_database`.

  The regular expressions are written as explicit scanners. `parse_markdown_table` is
  proved equal to a description by the first separator row.

Module `Text` holds the Python string operations both parts rely on:

- `strip()`, `split()`, `split('|')`, `' '.join(...)`, `in`, `upper()` and `lower()`;
- the text order of `ORDER BY`;
- `str(n)`.

Timestamps are readings of an abstract clock, passed in as `now`.

Behaviour of the code that the model keeps as written:

- `save_session` on a session that is already saved stamps `saved_at` again.
- Changing a saved session and adding an item a session already holds are answered with HTTP 400.
- A new session's id is `MAX(id) + 1`. Its default name is `Session <id>`, and an empty
  name also gets the default.
- `GET /sessions` is one list of all sessions, newest first.
- The console checks only the first word and the denylist. A keyword is refused only with a
  plain space, or an end of the query, on each side. So a query whose words are separated by
  tabs or newlines passes when it starts with `SELECT` (`Console.GateWithoutPlainSpaces`).
- Every 404 carries a fixed message ("Item not found", "Session not found", "Item not in session").

## Model

| member | source | states |
|---|---|---|
| Text.TrimLeftIsSuffix | scripts/load_checklist.py:48 | `lstrip()` removes a whitespace-only prefix and keeps the rest of the string unchanged |
| Text.TrimRightIsPrefix | scripts/load_checklist.py:48 | `rstrip()` removes a whitespace-only suffix and keeps the start of the string unchanged |
| Text.Strip | backend/main.py:209 | neither end of a stripped string is whitespace |
| Text.StripIsPiece | backend/main.py:209 | `strip()` keeps a contiguous piece of the input with only whitespace before and after it |
| Text.StripKeepsOut | scripts/load_checklist.py:68 | stripping introduces no character that was not in the input |
| Text.TakeWord | backend/main.py:213 | the first word is the longest whitespace-free prefix, followed by whitespace or the end |
| Text.Words | backend/main.py:213 | `s.split()`, defined by trimming leading whitespace and taking one word at a time; its properties are `WordsArePlain`, `WordsKeepVisible`, `NoWordsIffBlank` and `WordsOfJoin` |
| Text.WordsArePlain | backend/main.py:213 | every word `split()` yields is non-empty and whitespace-free |
| Text.WordsKeepVisible | scripts/load_checklist.py:32 | the words of `split()`, concatenated, are exactly the non-whitespace characters in order |
| Text.VisibleChars | scripts/load_checklist.py:32 | a character is visible exactly when it occurs and is not whitespace |
| Text.Join | scripts/load_checklist.py:32 | `sep.join(ws)`, the words separated by `sep`; its properties are `JoinIsCollapsed`, `WordsOfJoin` and `JoinSplitOn` |
| Text.Collapse | scripts/load_checklist.py:32 | `' '.join(s.split())`; its properties are `CollapseKeepsVisible`, `CollapseIsCollapsed` and `CollapseIdempotent` |
| Text.CollapseKeepsVisible | scripts/load_checklist.py:32 | `' '.join(s.split())` loses, adds and reorders no visible character |
| Text.JoinIsCollapsed | scripts/load_checklist.py:32 | joining non-empty plain words with one space gives a string with no edge whitespace and no double space |
| Text.CollapseIsCollapsed | scripts/load_checklist.py:32-33 | the collapsed text has only plain spaces, none at either end and never two in a row |
| Text.WordsOfJoin | scripts/load_checklist.py:32 | splitting words joined by single spaces gives the words back |
| Text.CollapseIdempotent | scripts/load_checklist.py:32 | collapsing whitespace twice equals collapsing it once |
| Text.StripCollapsed | scripts/load_checklist.py:33 | the final `strip()` of `clean_text` leaves a collapsed string unchanged |
| Text.SplitOn | scripts/load_checklist.py:66 | splitting on a character yields at least one piece and no piece holds that character |
| Text.JoinSplitOn | scripts/load_checklist.py:66 | joining the pieces of `split(c)` with `c` restores the string |
| Text.SplitOnJoin | scripts/load_checklist.py:66 | splitting separator-free pieces joined by `c` gives the pieces back |
| Text.ContainsIff | scripts/load_checklist.py:15 | the `in` scan succeeds exactly when the substring occurs at some index |
| Text.Upper | backend/main.py:213 | `upper()` keeps the length, leaves no lower-case ASCII letter, and changes exactly the lower-case ASCII letters |
| Text.Lower | backend/main.py:153 | SQL `LOWER` keeps the length, leaves no upper-case ASCII letter, and changes exactly the upper-case ASCII letters |
| Text.BelowIrreflexive | backend/main.py:254 | the text order of `ORDER BY` is irreflexive |
| Text.BelowTransitive | backend/main.py:254 | the text order is transitive |
| Text.BelowTotal | backend/main.py:254 | any two different texts are ordered one way or the other |
| Text.BelowAsymmetric | backend/main.py:254 | the text order is asymmetric |
| Text.NatToString | backend/main.py:405 | `str(n)` is a non-empty string of digits without a leading zero |
| Text.NatToStringRoundTrip | backend/main.py:405 | reading the digits of `str(n)` back gives `n` |
| Catalog.SameIdSameRow | backend/main.py:164-172 | with unique ids, two rows with the same id are the same row |
| Catalog.Like | backend/main.py:153-154 | SQL `LIKE` with `%` for any run and `_` for any one character and no escape; its properties are the `Like...` lemmas below |
| Catalog.Matches | backend/main.py:141-154 | what a returned row meets: the `found` filter when given, category and region equality and the case-insensitive `LIKE` when non-empty (see `BuildWhere`) |
| Catalog.LikePercentMatchesAll | backend/main.py:153-154 | the pattern `%` matches every string |
| Catalog.LikeLiteralPrefix | backend/main.py:153-154 | a wildcard-free pattern followed by `%` matches exactly the strings it starts |
| Catalog.LikeLeadingPercent | backend/main.py:153-154 | a leading `%` matches the rest of the pattern against some suffix, both directions |
| Catalog.LikeContains | backend/main.py:153-154 | `%w%` with a wildcard-free `w` matches exactly the strings containing `w` |
| Catalog.NameFilterIsSubstring | backend/main.py:151-154 | the name filter is a case-insensitive substring test when the query holds no `%` or `_` |
| Catalog.UnderscoreFilterMatchesAnyName | backend/main.py:151-154 | a name query of `_` matches every non-empty name, so the filter is not a plain substring test |
| Catalog.BuildWhere | backend/main.py:136-154 | a row satisfies every appended clause exactly when it matches each supplied filter; a false `found` filters, an empty string does not |
| Stats.CountAllIsLength | backend/main.py:268-274 | `COUNT(*)` equals the number of rows |
| Stats.CountRows | backend/main.py:268-272 | the aggregates `COUNT(*)`, `SUM(CASE WHEN found ...)` and `SUM(CASE WHEN NOT found ...)` over all rows, never more than the number of rows |
| Stats.Tally | backend/main.py:292-300 | the same aggregate over one `GROUP BY` group, never more than over the whole table |
| Stats.Completion | backend/main.py:277-279 | for a positive total the percentage `p` satisfies `p * total == found * 100` |
| Stats.FoundAndMissingPartition | backend/main.py:268-274 | found and not-found counts add up to the total |
| Stats.GroupFoundAndMissingPartition | backend/main.py:287-296 | within one group, found and not-found counts add up to the group total |
| Stats.TallyOfPresentKey | backend/main.py:287-296 | a group named after some row's key holds at least one row |
| Stats.SetFoundCount | backend/main.py:188-191 | setting one row's found flag changes the found count by that row alone |
| Stats.CompletionBounds | backend/main.py:277-279 | completion lies in [0, 100]; it is 0 for an empty table, 0 exactly when nothing is found, 100 exactly when all is |
| Stats.Overall | backend/main.py:268-279 | the overall total is the number of rows |
| Stats.OverallConsistent | backend/main.py:268-280 | both sums are NULL exactly on an empty table; otherwise not-found = total − found and found ≤ total; completion in [0, 100] |
| Stats.InsertKey | backend/main.py:254 | inserting a key keeps the list strictly sorted and adds exactly that key |
| Stats.DistinctKeys | backend/main.py:254 | `SELECT DISTINCT ... ORDER BY` lists each key of the column exactly once, strictly ascending |
| Stats.GroupCounts | backend/main.py:287-296 | the grouped query has one row per distinct key |
| Stats.OccursOnce | backend/main.py:293-295 | in a strictly sorted key list each key occurs once |
| Stats.SumTallyCovers | backend/main.py:287-296 | summing a group aggregate over distinct keys covering all rows gives the ungrouped aggregate |
| Stats.GroupStatsPartition | backend/main.py:287-327 | group totals sum to the number of rows and group found counts to the overall found count |
| Stats.GroupStatConsistent | backend/main.py:287-303 | each group is non-empty, its found and not-found counts add up, and its completion lies in [0, 100] |
| Checklist.ParseFound | scripts/load_checklist.py:13-15 | true exactly when `**X**` or `**x**` occurs somewhere in the cell |
| Checklist.SchemeLength | scripts/load_checklist.py:20 | the scheme `https?://` is recognised with its length, 7 or 8, or not at all |
| Checklist.UrlAt | scripts/load_checklist.py:20 | the group `https?://[^)]+` read at an index is an http(s) address without `)`, closed by `)` |
| Checklist.FirstCloseAfter | scripts/load_checklist.py:20 | the lazy `.*?` takes the first `]` that completes the match, and none exists when it fails |
| Checklist.FirstLinkMatch | scripts/load_checklist.py:20 | the search finds the leftmost match, or reports that no match exists |
| Checklist.ExtractUrl | scripts/load_checklist.py:18-21 | None exactly when the pattern matches nowhere; otherwise the URL of the leftmost, shortest match |
| Checklist.TargetShape | scripts/load_checklist.py:20 | a link target is an http(s) address written between `](` and `)` |
| Checklist.ExtractUrlShape | scripts/load_checklist.py:18-21 | an extracted URL is an http(s) address without `)` that occurs in the cell after `](` |
| Checklist.UrlAtOf | scripts/load_checklist.py:20 | an http(s) address followed by `)` is read whole |
| Checklist.LinkCell | scripts/load_checklist.py:20 | in a one-link cell the `[` at 0 matches with the `]` right after the text, and no `]` comes earlier |
| Checklist.ExtractUrlOfLink | scripts/load_checklist.py:18-21 | a cell that is exactly `[text](url)` yields `url` |
| Checklist.StarSpanClose | scripts/load_checklist.py:29-30 | the closing run of a bold or italic span is the first asterisk after the opening one |
| Checklist.LinkAt | scripts/load_checklist.py:27 | a link starting at the head of the text is found, and none is reported when there is none |
| Checklist.StarsAt | scripts/load_checklist.py:29-30 | a marked span at the head of the text is found, and none is reported when there is none |
| Checklist.StripLinks | scripts/load_checklist.py:27 | removing link syntax never lengthens the text |
| Checklist.StripStars | scripts/load_checklist.py:29-30 | removing bold and italic markers never lengthens the text |
| Checklist.StripLinksPlain | scripts/load_checklist.py:27 | text without `[` is left unchanged |
| Checklist.StripStarsPlain | scripts/load_checklist.py:29-30 | text without `*` is left unchanged |
| Checklist.StripLinksCons | scripts/load_checklist.py:27 | a character that opens no link is copied through |
| Checklist.StripLinksAtLink | scripts/load_checklist.py:27 | a link at the head of the text is replaced by its text |
| Checklist.StripLinksPrefix | scripts/load_checklist.py:27 | text without `[` in front of the rest is copied through |
| Checklist.StripLinksOfLink | scripts/load_checklist.py:27 | a link is replaced by its text and what precedes it is kept |
| Checklist.StripStarsCons | scripts/load_checklist.py:29-30 | a character other than `*` is copied through |
| Checklist.StripStarsAtMarked | scripts/load_checklist.py:29-30 | a marked run at the head of the text loses its markers |
| Checklist.StripStarsPrefix | scripts/load_checklist.py:29-30 | text without `*` in front of the rest is copied through |
| Checklist.StripStarsOfMarked | scripts/load_checklist.py:29-30 | a marked run loses its markers and what precedes it is kept |
| Checklist.CleanText | scripts/load_checklist.py:24-33 | the result has no edge whitespace and no double space, and keeps every visible character left after markdown removal |
| Checklist.CleanPlainText | scripts/load_checklist.py:24-33 | text without markdown only has its whitespace collapsed, and cleaning twice equals cleaning once |
| Checklist.StripEach | scripts/load_checklist.py:68 | each cell is the stripped piece at the same position |
| Checklist.CellsArePlain | scripts/load_checklist.py:66-68 | no cell holds a pipe or starts or ends with whitespace |
| Checklist.CellsOfRow | scripts/load_checklist.py:66-68 | reading the cells of a row written from stripped, pipe-free cells gives the cells back |
| Checklist.RowParts | scripts/load_checklist.py:66-68 | splitting a row on the pipe gives an empty piece, the cells, then an empty piece |
| Checklist.IsTableRow | scripts/load_checklist.py:57 | a stripped line starting and ending with a pipe (see `NonTableLineIgnored`) |
| Checklist.IsSeparatorRow | scripts/load_checklist.py:59 | a table row containing `:---`, `---:` or a pipe followed by ` ---` |
| Checklist.Cells | scripts/load_checklist.py:66-68 | the stripped pieces between the first and last pipe; its properties are `CellsArePlain`, `RowParts` and `CellsOfRow` |
| Checklist.RowEntry | scripts/load_checklist.py:70-87 | an entry exists exactly when there are at least 5 cells and the cleaned name is non-empty; its fields are cleaned; information is empty with exactly 5 cells |
| Checklist.Classify | scripts/load_checklist.py:48-87 | any entry a table row yields has a non-empty name and cleaned fields |
| Checklist.FirstSeparator | scripts/load_checklist.py:57-63 | the index of the first separator row, with no separator before it, or the end |
| Checklist.FirstSeparatorIs | scripts/load_checklist.py:57-63 | the first separator is the one index that is a separator with none before it |
| Checklist.Step | scripts/load_checklist.py:51-87 | one iteration of the loop on a classified line: a separator sets `header_found`, a row after it adds its entry (see `StepOfLine`) |
| Checklist.Run | scripts/load_checklist.py:47-87 | the loop state after a run of lines; `RunIsReadTable` proves what it holds |
| Checklist.RunIsReadTable | scripts/load_checklist.py:44-87 | after any lines, `header_found` is set exactly when a separator was read, and the entries are those of the rows after the first separator |
| Checklist.StepOfLine | scripts/load_checklist.py:48-87 | one iteration of the line loop, branch by branch, is one step of the reader |
| Checklist.ParseMarkdownTable | scripts/load_checklist.py:36-89 | the loop returns the entries of the table rows after the first separator, in line order |
| Checklist.RowEntriesAppend | scripts/load_checklist.py:79-87 | entries of consecutive line runs appear in line order |
| Checklist.RowEntriesProvenance | scripts/load_checklist.py:79-87 | every entry comes from a table row of the run, and there are no more entries than lines |
| Checklist.ParseTableEntries | scripts/load_checklist.py:57-87 | every parsed entry is well formed and comes from a table row after the first separator; no more entries than lines |
| Checklist.NoSeparatorNoEntries | scripts/load_checklist.py:57-63 | without a separator row nothing is read |
| Checklist.ReadTableAfterHeader | scripts/load_checklist.py:61-63 | rows before the separator change nothing that is read |
| Checklist.HeaderLinesIgnored | scripts/load_checklist.py:61-63 | lines before the table that hold no separator change nothing that is read |
| Checklist.ReadTableWithoutIgnored | scripts/load_checklist.py:51-55 | a skipped line can be dropped without changing what is read |
| Checklist.RunSameAfter | scripts/load_checklist.py:47-87 | two line runs that leave the reader in the same state stay in step on whatever follows |
| Checklist.NonTableLineIgnored | scripts/load_checklist.py:51-55 | a blank line or a line not framed by pipes never contributes an entry |
| Checklist.CreateDatabase | scripts/load_checklist.py:114-126 | rows are the entries in order with ids 1..n, ascending, and an id exists exactly when it is in 1..n |
| Console.FirstWord | backend/main.py:213 | the first word is empty exactly when the query is all whitespace |
| Console.FirstForbidden | backend/main.py:223-231 | None exactly when no keyword is mentioned; otherwise the first keyword of the list that is mentioned |
| Console.Mentions | backend/main.py:227 | the test `f" {keyword} " in f" {sql_upper} "`; `MentionsIff` proves it is a space-bounded occurrence |
| Console.Gate | backend/main.py:209-231 | a query is accepted, stripped, exactly when its first word is `SELECT` and it mentions no denylisted keyword; otherwise a 400 with the SELECT-only message when the first word is not `SELECT`, else a 400 naming the first denylisted keyword, in list order, that the query mentions |
| Console.ExecuteSql | backend/main.py:201-248 | a refused query is answered with the gate's error and never executed; an accepted query answered with rows returns exactly those columns and rows with `row_count` their number; a database error becomes a 400 |
| Console.NoWordsIffBlank | backend/main.py:213 | `split()` is empty exactly when the text is all whitespace |
| Console.BlankQueryRejected | backend/main.py:209-219 | an empty or all-whitespace query is refused with the SELECT-only message |
| Console.AcceptedStartsWithSelect | backend/main.py:209-219 | an accepted query starts, once stripped, with `SELECT` in any case, followed by whitespace or the end |
| Console.AcceptedPrefix | backend/main.py:213-224 | when the first word is `SELECT`, the upper-cased query starts with `SELECT` |
| Console.MentionsIff | backend/main.py:227 | a keyword is mentioned exactly when it occurs with a plain space or an end of the query on each side |
| Console.PaddedToSpaced | backend/main.py:227 | an occurrence in the padded query is a space-bounded occurrence in the query |
| Console.SpacedToPadded | backend/main.py:227 | a space-bounded occurrence in the query is an occurrence in the padded query |
| Console.MentionsWithoutSpace | backend/main.py:227 | a query without a plain space mentions a keyword only by being that keyword |
| Console.UpperKeepsOutSpace | backend/main.py:224 | upper-casing introduces no plain space |
| Console.NoKeywordWithoutSpace | backend/main.py:223-231 | an upper-cased query starting with `S` and without a plain space mentions no denylisted keyword |
| Console.DenylistAvoidsS | backend/main.py:223 | no denylisted keyword starts with `S` |
| Console.GateWithoutPlainSpaces | backend/main.py:209-231 | a query whose words are separated only by tabs or newlines passes exactly when its first word is `SELECT` |
| Sessions.Of | backend/main.py:440 | the memberships with the session's id (`WHERE si.session_id = ?`); what is read through it is stated by `GetSession`, `GetSessions`, `DeleteSession` and `ClearSession` |
| Sessions.EarliestExists | backend/main.py:441 | a non-empty set of memberships has one added no later than the others |
| Sessions.LatestExists | backend/main.py:390 | a non-empty set of sessions has one created no earlier than the others |
| Sessions.OrderByAdded | backend/main.py:434-442 | every membership listed once, earliest first |
| Sessions.OrderByCreatedDesc | backend/main.py:378-390 | every session listed once, newest first |
| Sessions.NewestNext | backend/main.py:390 | taking the newest pending session next keeps the list distinct and newest first |
| Sessions.EntriesFollowOrder | backend/main.py:434-445 | entries built from the ordered memberships list each of the session's items once, earliest first, none left out |
| Tracker.SessionName | backend/main.py:405 | a new session's name is never empty: the supplied name when non-empty, otherwise `Session ` followed by the digits of the id |
| Tracker.Store.constructor | scripts/load_checklist.py:114-126 | a freshly loaded catalog with no sessions satisfies the store invariant |
| Tracker.Store.GetItems | backend/main.py:122-158 | exactly the rows matching every supplied filter, none twice, in ascending id order |
| Tracker.Store.Find | backend/main.py:164-170 | the position of the row with the id, found exactly when such a row exists |
| Tracker.Store.GetItem | backend/main.py:161-172 | the row with the id, or 404 "Item not found" exactly when there is none |
| Tracker.Store.UpdateItem | backend/main.py:175-198 | unknown id: 404 and nothing changes; otherwise exactly that row's found flag is set, and the updated row is returned |
| Tracker.Store.GetCategories | backend/main.py:251-255 | each category in the catalog once, strictly ascending |
| Tracker.Store.GetRegions | backend/main.py:258-262 | each region in the catalog once, strictly ascending |
| Tracker.Store.GetStats | backend/main.py:265-281 | total is the row count and found the found rows; the sums are NULL exactly on an empty table; not-found = total − found; completion is found / total × 100 (0 on an empty table), in [0, 100], 100 exactly when all is found |
| Tracker.Store.GetGroupStats | backend/main.py:284-327 | one entry per distinct key in key order; each entry's total, found and not-found counts are those of the catalog rows with that key, and its completion is found / total × 100; totals and found counts sum to the overall figures |
| Tracker.Store.GetSession | backend/main.py:418-447 | 404 exactly for an unknown session; otherwise its row and its items, each once, earliest added first, with their current catalog rows |
| Tracker.Store.GetSessions | backend/main.py:376-392 | every session once, newest first, with its row and its number of items |
| Tracker.Store.CreateSession | backend/main.py:395-415 | the new id is one above the largest in use (1 for the first), so it is fresh; named as supplied or `Session <id>`; unsaved and empty; nothing else changes |
| Tracker.Store.DeleteSession | backend/main.py:450-464 | 404 and no change for an unknown session; otherwise the session and all its memberships are removed |
| Tracker.Store.SaveSession | backend/main.py:467-482 | 404 for an unknown session; otherwise `saved_at` becomes now, even when it was set before, and the session is returned |
| Tracker.Store.AddSessionItem | backend/main.py:485-524 | the checks run in the source's order with their errors; past them exactly that membership is added, stamped now; no other session changes; membership stays unique |
| Tracker.Store.RemoveSessionItem | backend/main.py:527-553 | 404 for an unknown session, 400 for a saved one, 404 when the item is not in it; otherwise exactly that membership is removed |
| Tracker.Store.ClearSession | backend/main.py:556-571 | 404 for an unknown session, 400 for a saved one; otherwise that session is emptied and no other membership changes |

## Left out

- Stats.Completion: the percentage is the exact rational `found / total * 100`. Python's float division and `round(..., 2)` are not modelled, so the proved bounds hold for the exact value.
- Tracker.Store.GetStats: `completion_percent` is stated as `Completion(found_count, total)`, the exact rational, not the float rounded to two decimals.
- Tracker.Store.GetGroupStats: each group's `completion_percent` is stated as `Completion(found_count, total)`, the exact rational, not the float rounded to two decimals.
- Text.Upper: only ASCII letters change case. Python's `upper()` and SQL's `LOWER` also map other letters, which the model leaves unchanged.
- Text.Lower: only ASCII letters change case, as for `Text.Upper`.
- Checklist.StripLinks: its own contract gives only a length bound. What it does is stated by the `StripLinks...` lemmas for text without `[` and for well-formed links, not for every input.
- Checklist.StripStars: its own contract gives only a length bound. What it does is stated by the `StripStars...` lemmas for text without `*` and for well-formed marked runs.
- Checklist.CleanText: relates its result to the text after markdown removal through the visible characters and the collapsed shape, not character for character.
- The regular expressions of `extract_url` and `clean_text` are explicit scanners for the three patterns used, not a general regex engine.
- Reading the checklist file, connecting to DuckDB, creating tables and indexes (`ensure_sessions_tables`, `CREATE INDEX`), `main()` and `scripts/init_db.py` are file and database I/O and are not modelled.
- Running a console query is a parameter of `Console.ExecuteSql`. The model states what is done with the database's answer, not how it is computed.
- FastAPI routing, CORS, request and response models and server startup are web plumbing and are not modelled.
- Timestamps are values of an abstract clock passed in as `now`. `datetime.now()` and ISO formatting are not modelled.
- When two memberships or two sessions have equal timestamps, the order is the database's choice. The model proves the order by timestamp, but not which of several equal rows comes first.
- The surrogate `id` column of `session_items` is not modelled. Its value (`MAX(id) + 1`) is never returned or read back.
- Concurrent requests are not modelled. Each endpoint is one atomic step on the store.
- The catalog is held as a sequence in id order rather than as a map, because `get_items` reads it `ORDER BY id` and the loader numbers the rows 1..n.
