# Spool tracker — a Dafny model

The tracker follows piping spools through a fixed production flow:
fabrication, logistics 1, painting, logistics 2, then on board. Every spool
is a row of the spools table, with a database id and a unique tag. A spool
has at most one current-state row, which holds a stage, a status, a location,
a note and the time of the last update. Every update also appends an audit
event to a log. A spreadsheet import registers spools in bulk: it finds the
header cell whose text contains "isom" and get-or-creates one spool per
non-empty cell below it. A search lists spools by tag. The home page counts
the blocked spools.

The model puts the three tables in memory:
- `Registry.Spool` rows in rowid order;
- a `map` from spool id to `Store.SpoolState`;
- a `seq` of `Store.Event`.

`update_spool` and `import_excel` change these tables in place. They are
methods of the class `Tracker.SpoolTracker`, which has the tables as its
fields. Each method is proved against a pure specification function:
`Store.Transition` and `Worksheet.Import`. The properties are proved as
lemmas about those functions.

The header scan and the row loop of the import are loops in the source.
They are methods too (`Worksheet.FindHeader`, `Tracker.ImportRows`), and
each is proved equal to its function. `prev_stage`, the search filter and
the blocked count are pure functions.

Modules:
- `Wrappers`: `Option` and `Result`.
- `Stages`: the stage enum, `STAGE_ORDER` and `prev_stage`.
- `Registry`: the spools table, lookup by id or tag, and get-or-create.
- `Text`: substring test, ASCII lower-casing and `strip`.
- `TagSearch`: the search.
- `Store`: state rows, the event log, the update transition and the blocked count.
- `Worksheet`: the sheet grid, the header scan and the import.
- `Tracker`: the imperative class.

Four behaviours of the code a reader may not expect; the model follows the code:
- **Search is not case-sensitive.** `Spool.tag.contains(q)` becomes SQL `LIKE '%' || q || '%'`. SQLite evaluates it with ASCII case folding. Without an ESCAPE clause, `%` and `_` in the query are wildcards. `TagSearch.Like` models that operator, and the lemmas show the consequences.
- **Stage and status are not validated.** Beyond the web framework's refusal (422) of a missing or empty `stage` or `status`, they arrive as free-form strings and are stored unchecked. No stage-order check exists. `Store.SpoolState` and `Store.Event` therefore hold strings. In the model, the `Stage` enum is used only by `prev_stage`, and the `Status` enum only for the `BLOQUEADO` value the blocked count compares against (`Store.BLOCKED`).
- **No actor is recorded.** `updated_by` and `user_id` are never set. `Store.Valid` includes that they are `None`.
- **A missing header raises an error.** `col` and `header_row` are then never bound, so the import raises before it adds anything. The model returns `Failure(HeaderNotFound)` and leaves the table unchanged.

## Model

| member | source | states |
|---|---|---|
| Stages.IndexOf | main.py:75 | `list.index`: the position returned holds the stage, and no earlier position does |
| Stages.PrevStage | main.py:74-76 | the result is `None` exactly for FABRICACAO; otherwise it is the stage one rank earlier |
| Stages.StageOrderListsEachStageOnce | main.py:65-71 | STAGE_ORDER has five entries, lists every stage at its rank and repeats none |
| Stages.PrevStageAt | main.py:65-76 | `prev_stage(STAGE_ORDER[i])` is `STAGE_ORDER[i-1]` for i > 0 and `None` for i = 0 |
| Stages.PrevStageInjective | main.py:74-76 | two stages with the same predecessor are the same stage |
| Stages.StepsBackReachesFirst | main.py:65-76 | stepping back rank(s) times from any stage reaches FABRICACAO; one more step gives `None` |
| Registry.FindById | main.py:290 | `query.get(id)` finds a row exactly when the id is in the table, and that row has the id |
| Registry.FindByTag | main.py:353 | `filter_by(tag=…).first()` finds a row exactly when the tag is in the table, and that row has the tag |
| Registry.MaxId | main.py:100 | the largest id in the table bounds every id and is one of them; it is 0 for an empty table |
| Registry.NextId | main.py:100 | the id given to an inserted row exceeds every id in use |
| Registry.AddIfAbsent | main.py:353-354 | get-or-create only appends; the tag set gains exactly the tag; a present tag changes nothing; an absent tag adds one row with a fresh id |
| Registry.AddIfAbsentWellFormed | main.py:101 | get-or-create keeps the ids increasing and the tags unique |
| Registry.CountTagUnique | main.py:101 | under the unique constraint a tag occurs once if present and never otherwise |
| Registry.GetOrCreateTwice | main.py:353-354 | a second get-or-create of the same tag changes nothing, and exactly one row then has the tag |
| Text.StartsWithSpec | main.py:344 | the character-by-character prefix test answers yes exactly when the keyword occurs at position 0 |
| Text.HasInfix | main.py:344 | the `in` test on strings; `Text.HasInfixSpec` states it |
| Text.AsciiLower | main.py:344 | `lower()`; `Text.AsciiLowerSpec` states it |
| Text.HasInfixSpec | main.py:344 | the `in` test answers yes exactly when the keyword occurs at some position of the text |
| Text.AsciiLowerSpec | main.py:344 | `lower()` keeps the length and lowers each ASCII letter in place |
| Text.LeadingSpace | main.py:352 | counts exactly the run of whitespace at the start |
| Text.TrailingSpace | main.py:352 | counts exactly the run of whitespace at the end |
| Text.Strip | main.py:352 | `strip()`; `Text.StripTrims` and `Text.StripIdempotent` state it |
| Text.StripTrims | main.py:352 | `strip()` returns a slice of the text that has only whitespace outside it and neither starts nor ends with whitespace |
| Text.StripIdempotent | main.py:352 | stripping twice gives the same as stripping once |
| Text.AllSpaceStripsToEmpty | main.py:352 | a text of blanks strips to "" |
| TagSearch.Like | main.py:238 | SQLite `LIKE` with ASCII case folding, `%` for any run and `_` for any one character; its properties are the lemmas below |
| TagSearch.TagMatches | main.py:238 | `tag LIKE '%' \|\| q \|\| '%'`, the filter that `contains(q)` compiles to; `TagSearch.MatchesIffContainsIgnoringCase` states what it selects |
| TagSearch.PercentMatchesAll | main.py:238 | the pattern "%" matches every string |
| TagSearch.LeadingPercent | main.py:238 | a leading "%" lets the rest of the pattern match from any position |
| TagSearch.LiteralThenPercent | main.py:238 | a literal query followed by "%" matches exactly the strings that start with the query, ASCII case ignored |
| TagSearch.PrefixMatches | main.py:238 | a query followed by "%" matches every string that starts with the query exactly, wildcards or not |
| TagSearch.MatchesIffContainsIgnoringCase | main.py:238 | a query without wildcards selects a tag exactly when the tag contains it with ASCII case ignored |
| TagSearch.ContainsImpliesMatches | main.py:238 | a tag that contains the query exactly is always selected |
| TagSearch.LowerCaseQuerySelectsUpperCaseTag | main.py:238 | "sp" selects "SP-001", although "SP-001" does not contain "sp" |
| TagSearch.UnderscoreSelectsEveryTag | main.py:238 | "_" is a wildcard and selects every non-empty tag |
| TagSearch.FirstCharAbsentExcludes | main.py:238 | a tag in which no character folds to the query's first character is not selected |
| TagSearch.PrefixSelected | main.py:238 | a tag that starts with the query is selected |
| TagSearch.Matching | main.py:236-238 | the filter keeps exactly the rows whose tag matches, and keeps them all when the query is empty |
| TagSearch.MatchingMultiset | main.py:236-238 | the filter keeps each matching row exactly as often as the table holds it, and no other row |
| TagSearch.Search | main.py:236-240 | at most 100 rows, all from the table and all matching; as many rows as the filter keeps, cut at 100 (with `TagSearch.MatchingMultiset`: fewer than 100 only when fewer than 100 rows match) |
| TagSearch.SearchMultiset | main.py:236-240 | no row is returned more often than the table holds it; when at most 100 rows match, each matching row is returned exactly as often as the table holds it |
| TagSearch.EmptyQueryReturnsAll | main.py:237-240 | an empty query returns the table unfiltered, cut at 100 rows |
| TagSearch.EmptyQueryKeepsAll | main.py:237 | with an empty query the filter keeps every row in order |
| TagSearch.ExampleTagsSP | main.py:238 | "SP" selects SP-001 and SP-002 and not AX-100 |
| TagSearch.LookupExampleSP | main.py:236-240 | searching SP-001, SP-002 and AX-100 for "SP" returns the first two, in table order |
| TagSearch.LookupExampleNone | main.py:236-240 | searching the same table for "zz" returns nothing |
| Store.History | main.py:104 | a spool's history holds exactly that spool's events |
| Store.Latest | main.py:314-322 | the most recent event a spool has in the log; `Store.LatestSpec` states it |
| Store.LatestSpec | main.py:314-322 | the latest event of a spool is its last one in the log; there is none exactly when it has no event |
| Store.Filled | main.py:287 | the required form fields `stage` and `status` are present and non-empty; `Store.Transition` states the 422 it decides |
| Store.NewState | main.py:294-312 | the state row an update writes: the submitted values, location and note "" by default, stamped `now`, no user; `Store.TransitionWritesState` states it |
| Store.NewEvent | main.py:314-322 | the UPDATE event an update logs, numbered after the last one; `Store.TransitionAppendsEvent` states it |
| Store.Transition | main.py:286-324 | `update_spool` fails exactly for a form without a stage or a status (422, checked first) or an unknown id (404), and never changes the spools table |
| Store.LatestAppend | main.py:314-322 | unfolding of `Latest` over an append: after an append the latest event of the appended event's spool is the new event; other spools are unaffected |
| Store.HistoryAppend | main.py:314-322 | an append extends only the history of the appended event's spool |
| Store.TransitionWritesState | main.py:294-312 | after an update the spool's state holds exactly the submitted stage, status, location and note ("" by default), stamped `now`, whether it was created or overwritten; other states are untouched |
| Store.TransitionAppendsEvent | main.py:314-322 | an update appends exactly one UPDATE event with the submitted values, `ts = now` and no user; earlier events are unchanged; only this spool's history grows |
| Store.TransitionKeepsMirror | main.py:294-322 | after an update every spool's state still equals its latest event, and a spool has a state exactly when it has an event |
| Store.TransitionKeepsEventIds | main.py:314-322 | the log stays numbered 1, 2, … and holds only UPDATE events without a user for registered spools |
| Store.TransitionPreservesValid | main.py:286-324 | an update keeps the whole table invariant: one state per spool, equal to its latest event |
| Store.UnknownSpoolChangesNothing | main.py:287-292 | an unknown id gives 404, or 422 when the form is also incomplete, and writes no state and no event |
| Store.RepeatedUpdateSameState | main.py:294-322 | repeating an update leaves the same state but logs a second event |
| Store.ApplyAllSucceeds | main.py:287-292 | any series of complete updates to a registered spool succeeds and leaves the spools table unchanged |
| Store.ApplyAllKeepsValid | main.py:286-324 | a series of updates keeps the table invariant |
| Store.ApplyAllUpdates | main.py:294-322 | N updates to one spool add N events for it; its one state equals the last submission; the old log is a prefix of the new one; other spools' states and histories are unchanged |
| Store.TransitionKeepsTimeOrder | main.py:295-316 | the log stays ordered by time as long as the clock does not run backwards |
| Store.BlockedCount | main.py:187-192 | the blocked count never exceeds the number of state rows |
| Store.BlockedIdsAfterWrite | main.py:187-192 | writing one state row changes the blocked set only at that row |
| Store.BlockedCountAfterWrite | main.py:187-192 | writing one state row moves the blocked count by the change in that row's status |
| Store.BlockedCountAfterTransition | main.py:297-312 | an update moves the blocked count by -1, 0 or +1, according to that spool's old and new status |
| Store.GrowRegistryPreservesValid | main.py:354-356 | adding spools keeps the table invariant; the new spools have no state and no events |
| Worksheet.MaxColumn | main.py:343 | `max_column` bounds the width of every row and is attained by some row |
| Worksheet.CellPastLastColumn | main.py:343-344 | a cell right of the widest row is empty |
| Worksheet.IsHeaderCell | main.py:344 | a non-empty cell whose lower-cased text contains "isom"; `Worksheet.FirstHeaderColumnSpec` states the scan over it |
| Worksheet.FirstHeaderColumn | main.py:343-347 | the column loop with its `break`; `Worksheet.FirstHeaderColumnSpec` states it |
| Worksheet.HeaderIn | main.py:342-347 | the row loop over rows 1..n; `Worksheet.HeaderInSpec` states it |
| Worksheet.HeaderOf | main.py:342-347 | the scan of rows 1..9; `Worksheet.HeaderInSpec` and `Worksheet.FindHeader` state it |
| Worksheet.FirstHeaderColumnSpec | main.py:343-347 | the column loop stops at the leftmost header cell of the row, and finds nothing exactly when the row has none |
| Worksheet.HeaderInSpec | main.py:342-347 | the scan settles on the last of rows 1..9 that has a header cell, at that row's first header column; it finds nothing exactly when no such row exists |
| Worksheet.FindHeader | main.py:342-347 | the nested loops compute exactly the header that `HeaderOf` specifies |
| Worksheet.CellTag | main.py:350-352 | a non-empty cell yields its stripped text, an empty one nothing; `Worksheet.BlankCellYieldsEmptyTag` and `Worksheet.RowTagsCoverCells` use it |
| Worksheet.RowTags | main.py:349-352 | the tags the row loop reads; `Worksheet.RowTagsFromCells` and `Worksheet.RowTagsCoverCells` state them |
| Worksheet.AddAll | main.py:349-354 | the row loop's get-or-creates in order; `Worksheet.AddAllGrows`, `Worksheet.AddAllWellFormed` and `Worksheet.AddAllPresent` state it |
| Worksheet.RowTagsStep | main.py:349-352 | unfolding of `RowTags`: one more row adds its cell's tag, if the cell yields one, at the end |
| Worksheet.RowTagsFromCells | main.py:349-352 | every tag the rows yield comes from a non-empty cell of those rows in the header column |
| Worksheet.RowTagsCoverCells | main.py:349-352 | every non-empty cell of those rows in the header column contributes its stripped text to the rows' tags |
| Worksheet.RowTagsPastLastRow | main.py:349-352 | running the row loop past the last row yields the same tags as stopping at the last row |
| Worksheet.AddAllGrows | main.py:349-354 | get-or-creating a series of tags only appends, and the table ends with the old tags plus the series |
| Worksheet.AddAllWellFormed | main.py:349-354 | get-or-creating a series of tags keeps ids increasing and tags unique |
| Worksheet.AddAllSnoc | main.py:349-354 | unfolding of `AddAll`: one more tag is one more get-or-create on the table so far, which the autoflush makes visible |
| Worksheet.AddAllPresent | main.py:353 | tags already present add nothing |
| Worksheet.Import | main.py:337-357 | the import fails exactly when the scan finds no header cell |
| Worksheet.ImportFromHeader | main.py:349-354 | unfolding of `Import`: with the header at row hr, column c, the import get-or-creates the tags of rows hr+1 to max_row of column c, in order |
| Worksheet.ImportGrows | main.py:349-356 | a successful import only appends rows and keeps ids increasing and tags unique |
| Worksheet.ImportAddsSheetTags | main.py:349-354 | the table ends with its old tags plus the sheet's tags below the header, and every new tag comes from a cell below the header, and every non-empty cell below the header leaves its tag in the table |
| Worksheet.ImportTwiceAddsNothing | main.py:349-354 | importing the same sheet again adds nothing |
| Worksheet.ScanPastLastRow | main.py:342-345 | rows past the end of the sheet hold no header, so the scan settles as if it stopped at the last row |
| Worksheet.LaterHeaderRowWins | main.py:342-347 | with "ISOMETRICO" in row 2 and "Isometria" in row 5, the header is row 5, column 1; `break` leaves only the column loop |
| Worksheet.BlankCellYieldsEmptyTag | main.py:350-352 | a cell of blanks passes the truthiness test and yields the tag "" |
| Tracker.ImportRows | main.py:349-354 | the row loop leaves the table that get-or-creating the rows' tags in order gives |
| Tracker.ImportSheet | main.py:342-354 | the header scan and the row loop together compute `Import` |
| Tracker.ImportKeepsValid | main.py:337-357 | a successful import keeps the table invariant |
| Tracker.SpoolTracker.constructor | main.py:143 | the fresh tables are empty and satisfy the invariant |
| Tracker.SpoolTracker.UpdateSpool | main.py:286-325 | 422 with nothing changed for a form without a stage or a status, then 404 with nothing changed for an unknown id; otherwise a 303 reply, the tables exactly `Transition`'s result, and the invariant kept |
| Tracker.SpoolTracker.ImportExcel | main.py:337-357 | a failed import changes nothing; a successful one leaves exactly `Import`'s table; states and events are unchanged; the invariant is kept |

## Left out

- HTML pages, FastAPI routing and redirects (main.py:181-283) are presentation. The 422, 404 and 303 replies are kept as `Tracker.UpdateReply`.
- Login, logout, sessions and bcrypt hashing are authentication plumbing over foreign libraries. So is the admin seeding of `init_db` (main.py:142-157). The `users` table is not modelled.
- QR image generation (main.py:328-334) is an opaque third-party library.
- Workbook loading by openpyxl, and the engine, session and commit mechanics of SQLAlchemy, are library code.
  - The sheet is a grid of optional strings: each cell is the text its value prints as.
  - A commit is one atomic step.
  - The session's autoflush is modelled: a tag added earlier in an import is seen by later rows.
- openpyxl reports `max_row` and `max_column` as at least 1, and the header scan's `ws.cell(r, c)` calls create empty cells up to row 9, so the row loop may run past the sheet's last row. `Worksheet.MaxRow` and `Worksheet.MaxColumn` are the sheet's own extent instead. The extra cells are empty, hold no header and yield no tag, so the header and the tags are the same (`Worksheet.CellPastLastColumn`, `Worksheet.ScanPastLastRow`, `Worksheet.RowTagsPastLastRow`).
- Non-string cell values are left out. A numeric 0 is falsy in Python and would be skipped; a cell holding the text "0" is not skipped.
- `datetime.utcnow()` is a parameter `now`. Times are integers.
- Concurrent requests are left out; the source relies on the database for them.
- Python's full Unicode `lower()` is replaced by ASCII lower-casing.
  - For the header test this is exact: no non-ASCII character lowers to a run that contains "isom".
  - The search's case folding is SQLite's, which is ASCII-only.
- TagSearch.Search: SQL gives no ORDER BY, so the row order is up to the database. The model returns rows in table (rowid) order.
- The maximum string lengths of the columns (`String(120)` and the others) are not enforced. SQLite does not enforce them.
- Events are not deleted and spools are not removed, since the source has no operation for either. Ids are therefore the rowids SQLite assigns: one more than the largest id, which SQLite does while ids stay below 2^63-1.
- Registry.NextId: ids are unbounded integers; past the largest rowid 2^63-1 SQLite picks an unused rowid at random instead, which the model does not capture.
- A full scenario that creates a spool and then runs two updates is not stated as one lemma. `Store.ApplyAllUpdates` covers any series of updates to one spool.
