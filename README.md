# Book-cataloguing pipeline: the deterministic core

The system photographs a book's title page, asks a vision model for the bibliographic fields,
asks a second model for a subject classification, asks the operator for a reading status, and
inserts the merged record into `master_table`. Almost all of that is I/O. This Dafny project
models the small rules in between, as `utils.py` implements them:

- **Trailing-comma repair** (`JsonRepair`): the line-based fix applied to a model reply before
  JSON parsing. Trailing commas are stripped from a line when the next original line is `}`.
- **Connection-string dispatch** (`Connection`): the backend name, compared without regard to
  case, selects one of three templates. Any other name is a configuration error.
- **Catalogue store** (`Catalogue`): a class holding the in-memory snapshot of the table. It
  covers insert planning (next primary key, the backend's schema query, record keys mapped
  case-insensitively onto columns), insert-then-reload, and the `ReadingStatus`
  carriage-return clean-up. Each engine's way of finding an unquoted column name is written
  out: PostgreSQL folds the name to lower case, MySQL and SQLite ignore case.
- **Orchestration** (`Pipeline`): the status prompt loop, and the workflow that routes on each
  stage's outcome. The workflow builds the record step by step and records its attempted
  insert and its clean-up as events.
- `Text` and `Records` hold the Python string and `dict` operations these rely on.
  `Text` covers `strip`, `rstrip`, `lower`, `split('\n')`, `'\n'.join` and `str(int)`.
  `Records` covers values, truthiness, and a `dict` kept as an ordered list of entries.

Behaviours of the code that the model keeps, and that a reader might not expect:

- The clean-up removes every trailing `\r`, not just one (`rstrip('\r')`).
- The repair compares the *stripped* next line with `}`, and removes commas with `rstrip(',')`.
  So a comma followed by blanks or by the `\r` of a CRLF line end is kept
  (`CommaBeforeSpaceIsKept`).
- The next key is `max(id)+1` only for a lower-case `id` column. With only an `ID` column it is
  the row count plus one, which can repeat a key after deletions (`UpperCaseIdCanCollide`).
- The repair is not idempotent (`RepairIsNotIdempotent`).
- On SQLite the schema query yields column positions, not names, so no record with an entry is
  ever inserted (see "## Findings").
- Every statement names its columns unquoted. PostgreSQL folds such a name to lower case, so
  there it finds only lower-case columns. The clean-up's `SET ReadingStatus` therefore never
  runs on PostgreSQL (`CleanUpdateNeedsKey`), and an insert that writes a mixed-case column is
  refused (`PostgresResolvesLowerCaseOnly`).
- With no `id` or `ID` column the clean-up updates by frame index under `id`. No column of the
  table answers to that name, so the update fails (`UpdateTargetsKeyColumn`).

## Model

| member | source | states |
|---|---|---|
| Text.RStripChar | utils.py:368 | `rstrip(c)` keeps a prefix, drops only `c` characters, and leaves no trailing `c` |
| Text.RStripSpaceSpec | utils.py:367 | `rstrip()` keeps a prefix, drops only white space, and leaves no trailing white space |
| Text.LStripSpaceSpec | utils.py:367 | `lstrip()` keeps a suffix, drops only white space, and leaves no leading white space |
| Text.JoinSplit | utils.py:362-371 | joining the pieces of `split('\n')` with newlines gives back the text |
| Text.SplitJoin | utils.py:362-371 | splitting a join of newline-free lines gives back those lines |
| Text.NatToString | utils.py:42 | `str(port)` is non-empty decimal digits, with no leading zero, that read back as the number |
| Records.Lookup | utils.py:495-510 | a key is found exactly when it is a key of the dict, and in a dict with distinct keys it yields that key's value |
| Records.Set | utils.py:501-510 | `d[k] = v` makes `k` read `v`, leaves every other key as it was, and adds `k` to the keys |
| Records.SetShape | utils.py:501-510 | `d[k] = v` adds an entry only for a new key and keeps keys distinct |
| Records.UpdateLookup | utils.py:495-497 | after `d.update(e)` a key reads from `e` when `e` has it and from `d` otherwise |
| Records.UpdateKeys | utils.py:495-497 | `d.update(e)` has the keys of both dicts, still distinct |
| JsonRepair.FixJsonFormatting | utils.py:351-371 | the loop's output is the repaired text, whose lines are the input's lines each repaired against the original next line |
| JsonRepair.FixedJsonLines | utils.py:362-371 | no repaired line holds a newline, so the output splits back into exactly the repaired lines |
| JsonRepair.RepairChangesOnlyFlaggedCommas | utils.py:362-371 | the line count is kept; a line changes iff it is flagged and ends in a comma; it changes only by losing trailing commas; a flagged line is left with no trailing comma |
| JsonRepair.RepairKeepsLastLine | utils.py:367 | the last line never changes |
| JsonRepair.SingleLineUnchanged | utils.py:362-371 | text without a newline, such as `{"a":1,}`, comes back unchanged |
| JsonRepair.RepairsTrailingCommaBeforeBrace | utils.py:366-368 | `{` / `"Title": "X",` / `}` is repaired to `{` / `"Title": "X"` / `}` |
| JsonRepair.CommaBeforeSpaceIsKept | utils.py:367-368 | a comma followed by `\r` before a `}` line survives the repair |
| JsonRepair.RepairIsNotIdempotent | utils.py:365-369 | `a,` / `},` / `}` changes again on a second pass |
| Connection.BackendOf | utils.py:41-48 | `mysql`, `postgresql` and `sqlite` are each selected exactly when the lower-cased name equals them |
| Connection.ConnectionString | utils.py:41-48 | a string is produced iff the lower-cased name is one of the three backends; otherwise the error "Unsupported database type" names the backend (same dispatch at utils.py:82-89 and 186-193) |
| Connection.DispatchIgnoresCase | utils.py:41-45 | names equal up to letter case give the same outcome and string |
| Connection.SchemeNamesBackend | utils.py:42-46 | the produced string's URL scheme is that of the backend the name selects |
| Connection.DifferentBackendsDifferentStrings | utils.py:41-48 | names selecting different backends never give the same string |
| Catalogue.MaxId | utils.py:181 | `df["id"].max()` bounds every id and is attained by one |
| Catalogue.NextId | utils.py:174-183 | the next key is 1 for an empty snapshot; with an `id` column it exceeds every id by at least one and is exactly one more than the largest; otherwise it is the row count plus one |
| Catalogue.ColumnForSpec | utils.py:222-224 | a column is found iff some column equals the key ignoring case, and it is the first such column |
| Catalogue.ExactMatchIsFolded | utils.py:222-227 | a key equal to a column also matches it ignoring case, so the exact-match `elif` never runs |
| Catalogue.LastValueForSpec | utils.py:220-225 | a column receives a value iff some record key maps to it, and then the value of the last such key |
| Catalogue.InsertDataSpec | utils.py:215-227 | the insert map holds the id column plus exactly the columns some key maps to; mapped columns carry the last mapped value, so a key mapping to the id column overrides the computed key; unmatched keys are dropped |
| Catalogue.InsertDataColumns | utils.py:217-227 | every insert-map column except the id column is a table column |
| Catalogue.NamedSchemaPlansInsertData | utils.py:213-227 | read from the column names, the planned insert is that insert map for every record |
| Catalogue.SqlitePlanFails | utils.py:211-222 | read from `PRAGMA table_info`, whose first cells are integers, a record with an entry makes the mapping raise |
| Catalogue.BuildInsertData | utils.py:213-227 | the mapping loop over the record's entries yields the planned insert, or the error a non-text schema cell raises |
| Catalogue.ResolvedKeysAreColumns | utils.py:217-240 | when the engine finds every name of the planned insert, each name is a column of the table itself |
| Catalogue.PostgresResolvesLowerCaseOnly | utils.py:232-240 | on PostgreSQL an unquoted column name is found exactly when it is already lower case |
| Catalogue.StoredRow | utils.py:238-247 | the reloaded new row has exactly the table's columns |
| Catalogue.PersistRoundTrip | utils.py:238-247 | each field mapped to a column reads back from the new row with the value the record gave it |
| Catalogue.NextIdIsFresh | utils.py:179-181 | with an `id` column and no key overriding it, the insert's key differs from every existing id |
| Catalogue.UpperCaseIdCanCollide | utils.py:179-183 | with only an `ID` column holding 1 and 3, the next key is 3, a key already in use |
| Catalogue.CleanRowSpec | utils.py:95-98 | a row changes iff its status is text ending in `\r`; then only the status changes, losing all its trailing `\r` and nothing else; no cleaned row is dirty |
| Catalogue.NoDirtyAfterClean | utils.py:125 | after cleaning, no row's status ends in `\r` |
| Catalogue.CleanIsIdempotent | utils.py:100-103 | cleaning cleaned rows changes nothing |
| Catalogue.NoDirtyMeansUnchanged | utils.py:100-103 | with no dirty row, cleaning changes nothing |
| Catalogue.CleanedRowsKeep | utils.py:125-136 | cleaning keeps every row's columns and every value outside the status column, the key among them |
| Catalogue.UpdateTargetsKeyColumn | utils.py:111-136 | the UPDATE's filter column is found iff the table has an `id` or `ID` column, and on PostgreSQL only for `id`; the update by frame index never is |
| Catalogue.CleanUpdateNeedsKey | utils.py:111-136 | an UPDATE the engine can run filters by a key column and is never on PostgreSQL |
| Catalogue.CleanRows | utils.py:109-138 | the walk over the snapshot yields the cleaned rows and counts the dirty ones |
| Catalogue.Catalogue.Load | utils.py:14-29 | construction stores the configuration and the loaded table, and the snapshot invariant holds |
| Catalogue.Catalogue.AddToDatabase | utils.py:162-254 | it succeeds iff the dispatch succeeds, the mapping over the backend's schema cells does not raise, the store accepts, and the engine finds every name and the key is a fresh integer; on success the snapshot gains exactly the stored row, otherwise nothing changes; on SQLite a record with an entry always fails; the invariant is kept |
| Catalogue.Catalogue.CleanDatabase | utils.py:67-154 | with no `ReadingStatus` column it fails; with no dirty row it succeeds without writing; otherwise it succeeds iff the engine finds the status and filter columns and the store takes the updates, which needs a key column and never happens on PostgreSQL; on success the rows become the cleaned rows and the count is the number of dirty rows; on failure nothing changes |
| Catalogue.CleanTwice | utils.py:67-154 | after a successful clean-up, a second run succeeds, cleans nothing and keeps the cleaned rows |
| Pipeline.ChosenStatus | utils.py:450-461 | the chosen status is always one of Complete, Partially Complete, Not Started |
| Pipeline.RejectedAnswersSkipped | utils.py:457-458 | rejected answers before the rest do not change the outcome |
| Pipeline.InvalidThenComplete | utils.py:450-458 | answering `x` then `c` rejects `x` and selects Complete |
| Pipeline.PaddedUpperCaseAccepted | utils.py:452-454 | ` P ` is lower-cased and stripped and selects Partially Complete |
| Pipeline.GetReadingStatusFromUser | utils.py:438-461 | every answer before the deciding one was rejected; a valid letter decides by the `c`/`p`/`n` table; a failed read or exhausted input gives Not Started |
| Pipeline.ProcessCompleteBookWorkflow | utils.py:463-538 | a failed capture returns nothing and cleans nothing up; a failed extraction cleans up once; otherwise it attempts one insert, recording the store's answer, and then cleans up once, returning the record only if the insert succeeded; the record's ReadingStatus is the operator's choice, its Location is the location or NULL when falsy, and its other fields come from the classification when it gave a non-empty object holding them, else from the extraction |

## Findings

| source | as written | input that shows it | evidently intended | confidence | as-written member | corrected member |
|---|---|---|---|---|---|---|
| utils.py:211-213 | `columns = [row[0] for row in result]` after `PRAGMA table_info`, whose first cell is the integer `cid`; the mapping then calls `col.lower()` on an integer | SQLite, any table with a column, any record with an entry such as `{"Title": "X"}` | read the name (`row[1]`) for SQLite, so the mapping sees column names | high; not executed | Catalogue.SqlitePlanFails | Catalogue.NamedSchemaPlansInsertData |

## Left out

- Camera capture (HTTP GET, timestamped file name, file write) is the `capture` parameter of the workflow: a path or nothing.
- Deleting the image is a `CleanedUp` trace event. A missing file or failed deletion is only logged, so the event is unconditional.
- The two language-model calls and `json.loads` are their outcomes: the parsed object, or nothing on a transport or parse error. A reply that parses to something other than an object is not modelled.
- The SQL engine, INSERT and UPDATE are modelled by their effect on the snapshot. The schema query is modelled by the first cell of each row it returns.
- The store's verdict is a parameter (`accepted`, `storeOk`). Two constraints are written out: every name must resolve to a column, and the primary key must be an integer not already taken.
- Catalogue.Catalogue.Load: the table's column names are taken to differ from each other even ignoring case, and only `id` or `ID` may fold to `id`. MySQL and SQLite enforce the first; PostgreSQL allows quoted names that break it. Under the second, the update by frame index in `clean_database` finds no column. A table with a column such as `Id` is not modelled: there that update would rewrite the rows whose `Id` equals a frame index.
- Catalogue.Catalogue.AddToDatabase: an empty record on SQLite plans `{ID: next}` without reading the schema names; the model stores it only when the key column is named exactly `ID`, though SQLite would also match a key column `id`. A record from the workflow is never empty.
- Catalogue.Catalogue.Load: the snapshot is taken to mirror the table (single writer). A failed load gives an empty frame, and construction then fails on the missing `Subject` column, so construction requires a successful load. A failed reload after a write is not modelled.
- Concurrent writers racing on `max+1` keys: single-writer use is assumed.
- The inserted columns are kept as a map, so the column order of the INSERT statement is not modelled.
- `get_subjects_list` and `get_subjects_specific_list` are left out; they only feed the classification prompt.
- `run_interactive_mode`, `run_single_capture`, `run` and all console printing are console glue. `example_usage.py` and `test_db.py` are not part of this model.
- Catalogue.NextId: requires the id column to hold integers, because it is the table's integer primary key. 64-bit overflow of the key is not modelled.
- Catalogue.Catalogue.CleanDatabase: the walk goes over every row and skips clean ones, rather than over a pre-filtered frame. The dirty-row count is returned instead of printed.
- Catalogue.Catalogue.CleanDatabase: a failed UPDATE is taken to commit nothing, because the transaction is never committed.
- Catalogue.BuildInsertData: the exact-match `elif` is not written, because `ExactMatchIsFolded` proves it dead.
- Text.Lower: only ASCII letters are lower-cased; Python's full Unicode case mapping is not modelled.
- Pipeline.ProcessCompleteBookWorkflow: the persist outcome is a parameter rather than a call into the catalogue, and the image path assignment in `process_captured_image` is not modelled.
