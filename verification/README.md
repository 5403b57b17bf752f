# Student_Management in Dafny

A model of the record-keeping core of Student_Management, a PyQt desktop
application that keeps students and their evaluations in SQLite, plus its
JSON settings helper. Every operation is a pure function:

- the SQLite database is a value `Records.Store`: the `students` rows, the
  `evaluations` rows, and the next AUTOINCREMENT id;
- a button's effect is a function from the store, the form's text fields,
  the selected student number and the current time to the new store, or to
  the message the user is shown (`Result`). On a failure the store is
  unchanged.

Modules, following the program's structure:

| file | module | what it models |
|---|---|---|
| `wrappers.dfy` | `Wrappers` | `Option` (also SQL NULL and Python `None`) and `Result` |
| `text.dfy` | `Text` | `str.strip()`, and SQLite's BINARY text order (code point order) |
| `dates.dfy` | `Dates` | `is_valid_date`: the `^\d{4}-\d{2}-\d{2}$` check, then `strptime(.., '%Y-%m-%d')` with its regex alternatives |
| `sorting.dfy` | `Sorting` | a stable sort standing for `ORDER BY` |
| `records.dfy` | `Records` | the two tables, the UNIQUE and AUTOINCREMENT invariants (`Wf`), `SELECT .. WHERE` |
| `listing.dfy` | `Listing` | `load_students`, `load_evaluations` |
| `operations.dfy` | `Operations` | `add_student`, `update_student`, `delete_student`, `add_evaluation`, `delete_evaluation` |
| `csv_exchange.dfy` | `CsvExchange` | `export_csv`, `import_csv` |
| `csv_round_trip.dfy` | `CsvRoundTrip` | what export followed by import does |
| `delete_cascade.dfy` | `DeleteCascade` | the evaluations `delete_student` leaves behind (see Findings) |
| `config.dfy` | `Config` | `ConfigManager`: `load_config`, `get`, `set`, `update`, `save_config` |

Model decisions:

- **Dates.** `Dates.IsValidDate` follows the code's two steps literally. These include:
  - Python's `$` also matching before a final newline;
  - `strptime` reading a month as one or two digits and backtracking.

  `Dates.IsCalendarDate` is the independent reading: exactly `YYYY-MM-DD`, year at least 1, a real day of that month. `Dates.IsValidDateCorrect` proves the two agree on every string.
- **Scores and float text.** A score is a `real`. Python's `float(text)` is a parameter `parse: string -> Option<real>` and `str(x)` a parameter `render`. The round-trip lemmas assume only that every score stored in the exported database is rendered as non-empty text that parses back to it (`CsvExchange.ScoresRoundTrip`). `CsvRoundTrip.SampleWf` and `CsvRoundTrip.SampleScoresRoundTrip` show a well-formed database and a codec that meet this.
- **The CSV backup is two files**, as the code writes it:
  - the student file, with four columns;
  - the `_evaluations` file: six columns holding `students LEFT JOIN evaluations`.

  A file is its header plus the records `csv.DictReader` yields. A missing trailing field reads as `None`.
- **NULL comparisons.** `delete_evaluation` compares the score and date shown in the table with SQL `=`. A NULL score or date is shown as the text "None", which equals nothing, so such a row is never deleted.
- **Import keeps what the evaluation file holds:**
  - every evaluation record whose number names an imported student is inserted, including a record with a blank subject, score or date;
  - in particular, the left join's record with empty evaluation fields comes back as an evaluation with an empty subject (see `CsvRoundTrip.RoundTripAddsBlankEvaluation`);
  - a score that does not parse is stored as NULL, and its record is still inserted.

## Model

| member | source | states |
|---|---|---|
| Dates.IsValidDateCorrect | student_database.py:18-28 | `is_valid_date(s)` holds exactly when `s` is `YYYY-MM-DD` naming a real calendar day with year at least 1. Empty strings, other separators, month 13, day 32, 29 February of a non-leap year and a trailing newline are all rejected. |
| Dates.Strptime | student_database.py:24-28 | the date `strptime` reads always has year at least 1 and month in 1..12 |
| Dates.StrptimeOnShape | student_database.py:21-28 | on text of the regex's shape, `strptime` succeeds iff the fields name a calendar day, and then reads exactly those fields |
| Dates.NewlineRejected | student_database.py:21-26 | a valid date followed by `\n` passes the regex (`$` matches before a final newline) but `strptime` rejects it |
| Dates.DaysInMonth | student_database.py:25 | months have 28 to 31 days; 28 exactly for February of a common year, 29 exactly for February of a leap year, 30 exactly for April, June, September, November |
| Dates.TestedValidDates | tests/test_student_db.py:203-205 | "2024-01-20" and "2024-12-31" are valid |
| Dates.TestedInvalidDates | tests/test_student_db.py:207-212 | "2024-13-01", "2024-01-32", "2024/01/20", "" and None are rejected |
| Dates.LeapDay2024 | student_database.py:24-26 | 29 February 2024 is accepted |
| Dates.LeapDay2000 | student_database.py:24-26 | 29 February 2000 is accepted (divisible by 400) |
| Dates.NoLeapDay1900 | student_database.py:24-28 | 29 February 1900 is rejected (divisible by 100, not 400) |
| Dates.NoLeapDay2023 | student_database.py:24-28 | 29 February 2023 is rejected |
| Dates.NoYearZero | student_database.py:24-28 | year 0000 is rejected |
| Text.StripInfix | student_database.py:278-279 | `strip()` returns the infix left after removing whitespace runs at both ends; the result neither starts nor ends with whitespace |
| Text.StripEmptyIffBlank | student_database.py:280 | a stripped field is empty exactly when the field is all whitespace |
| Text.LexLeTotal | student_database.py:194 | text order compares any two numbers |
| Text.LexLeTrans | student_database.py:194 | text order is transitive |
| Text.LexLeAntisym | student_database.py:194 | two numbers each ordered before the other are equal |
| Sorting.Sort | student_database.py:264 | the sorted rows are a permutation of the input |
| Sorting.SortSorted | student_database.py:264 | under a total preorder the result is ordered |
| Sorting.SortOfSorted | student_database.py:264 | rows already in order stay as they are (stability) |
| Records.Find | student_database.py:367-371 | `SELECT id FROM students WHERE student_number=?` finds a row iff the number is present, and the row has that number |
| Records.FindUnique | student_database.py:70 | under UNIQUE, the row found is the only row with that number |
| Records.EvalsOfMembers | student_database.py:342 | `WHERE student_id=?` keeps exactly the student's evaluations |
| Records.EvalsOfAppend | student_database.py:342 | selecting from appended tables appends the selections |
| Records.EmptyWf | student_database.py:66-87 | the freshly created database satisfies the table invariants |
| Listing.ListStudents | student_database.py:262-269 | the student list is every row, once, ordered by number |
| Listing.ListStudentsStrict | student_database.py:262-269 | with UNIQUE numbers the listing is strictly ascending |
| Listing.ListEvaluations | student_database.py:333-345 | the evaluation list is empty for an unknown number; otherwise it holds exactly that student's evaluations, latest date first, NULL dates last |
| Operations.AddStudent | student_database.py:277-294 | the add succeeds exactly when the stripped number and name are non-blank and the number is not present; a blank number or name is refused; a number already present is refused; otherwise one row is appended with the next id, the stripped fields, and created and modified both `now`; evaluations are untouched |
| Operations.AddStudentWf | student_database.py:277-294 | adding keeps numbers unique, ids unique and below the next id |
| Operations.DuplicateKeepsOne | student_database.py:290-291 | after a refused duplicate exactly one row holds the number |
| Operations.AddThenFind | student_database.py:285 | after an add the number finds the new row, exactly once |
| Operations.UpdateStudent | student_database.py:296-314 | the update succeeds exactly when a row is selected, both stripped fields are non-blank, and the new number is the selected one, is free, or the selected number is unknown; no selection and blank fields are refused; renaming onto another row's number is refused; an unknown selected number changes nothing; otherwise only the selected row changes number, name and modified time, keeping its id and created time |
| Operations.UpdateStudentWf | student_database.py:296-314 | an update keeps the table invariants |
| Operations.UpdateKeepsEvaluations | student_database.py:296-345 | after renaming, the new number shows exactly the evaluations the old number showed |
| Operations.DeleteStudent | student_database.py:316-331 | the delete succeeds exactly when a row is selected; without a selection nothing happens; otherwise exactly the rows with the number go, and the evaluation table is untouched |
| Operations.DeleteStudentWf | student_database.py:321 | deleting keeps the table invariants |
| Operations.DeleteLeavesEvaluations | student_database.py:321 | a present number disappears, one row goes, and every evaluation row stays |
| Operations.DeleteStudentCascade | tests/test_student_db.py:150-186 | with ON DELETE CASCADE the student's evaluations go too and no others |
| Operations.AddEvaluation | student_database.py:347-384 | the add succeeds exactly when a student is selected, subject, score and date are non-blank, the score parses, the date is a calendar date and the student exists; the checks in source order (selection; blank subject, score or date; non-numeric score; invalid date; unknown student) each refuse exactly their case; success appends one evaluation with the stripped fields and parsed score and stamps only the owner's modified time |
| Operations.AddEvaluationWf | student_database.py:363-374 | every stored date has passed `is_valid_date`; invariants kept |
| Operations.AddEvaluationFrame | student_database.py:372 | only the owner's evaluation list grows, by one; every other student's is unchanged |
| Operations.DeleteEvaluation | student_database.py:386-401 | the delete succeeds exactly when a row and a student are selected and the student exists; without a row or a selection nothing happens; an unknown student is an error; otherwise every copy of every evaluation of the student equal to the shown (subject, score, date) goes, every copy of every other evaluation stays, and the student's modified time is stamped |
| Operations.DeleteEvaluationFrame | student_database.py:396-398 | other students' evaluations are unchanged and no matching evaluation of the owner remains |
| CsvExchange.ExportCsv | student_database.py:189-206 | the two files carry the fixed headers; the student file holds exactly the students' records (as a multiset), ascending by number; the evaluation file is the left join taken in that student order |
| CsvExchange.EvaluationFile | student_database.py:200-206 | the evaluation file is ascending by number; it holds a record for every evaluation of every student, the empty-fields record for every student without evaluations, and only records of some student's block |
| CsvExchange.StudentBlockIsListing | student_database.py:201 | in a well-formed store a student's block of the evaluation file is the student's evaluation listing, latest date first, one record per evaluation |
| CsvExchange.StudentBlockMembers | student_database.py:201 | a student's block is the single empty-fields record when it has no evaluations, and otherwise exactly one record per evaluation, each carrying that evaluation |
| CsvExchange.JoinRows | student_database.py:201 | the left join gives a student one record per evaluation, the i-th carrying the i-th evaluation, or one record whose four evaluation fields are empty |
| CsvExchange.ImportCsv | student_database.py:212-260 | unreadable student file or evaluation file is a read error; a wrong header is refused before anything is deleted; when the student file loads with the right header and the evaluation file is missing or loads with the right header, the result is exactly the replacement of both tables by the files' records (no evaluations when the file is missing); on success the students are exactly the file's records with fresh ids, every evaluation belongs to an imported student, and the invariants hold |
| CsvExchange.ReplaceAll | student_database.py:235-254 | the delete-then-insert runs as one transaction: it commits iff every INSERT satisfies NOT NULL and UNIQUE, otherwise rolls back |
| CsvExchange.EvalsFromRowsMembers | student_database.py:240-253 | an evaluation is inserted for exactly the records whose number names an imported student |
| CsvExchange.EvalsFromRowsOnePerRecord | student_database.py:240-253 | one evaluation per matched record, in file order: the i-th inserted evaluation is the one the i-th matched record gives, and no matched record is skipped |
| CsvExchange.ImportScoreOfCell | student_database.py:246-250 | a score written by `str` reads back as the same score, and NULL, written as the empty field, reads back as NULL |
| CsvExchange.ImportDate | student_database.py:251 | a date is kept, unchanged, exactly when it is a `YYYY-MM-DD` calendar date, otherwise it becomes NULL |
| CsvRoundTrip.ImportOfExport | student_database.py:189-260 | importing the files an export wrote succeeds into any database |
| CsvRoundTrip.ExportImportFixedPoint | student_database.py:189-260 | when `float(str(x)) == x` for every stored score, export, import, export writes the same two files again |
| CsvRoundTrip.RoundTripStudents | student_database.py:189-239 | the imported students are the exported ones in number order, with number and name preserved and the created time coming back as its exported text (a NULL time comes back as the empty text) |
| CsvRoundTrip.RoundTripAddsBlankEvaluation | student_database.py:201-253 | when every stored score survives `float(str(x))`, a student without evaluations comes back owning one evaluation with an empty subject, no score, no date, empty notes |
| CsvRoundTrip.ReloadedEvaluations | student_database.py:201-253 | when every stored score survives `float(str(x))`, each imported student owns exactly its exported evaluations with the new id and with NULL notes turned into the empty text, or the one blank evaluation |
| DeleteCascade.DeleteLeavesOrphans | student_database.py:316-331 | after `delete_student`, every evaluation of the deleted student is still stored and no student owns it |
| DeleteCascade.OrphanExample | student_database.py:321 | a one-student, one-evaluation database with no orphans has an orphan after the delete |
| DeleteCascade.CascadeKeepsOwned | tests/test_student_db.py:150-186 | the cascading delete keeps every evaluation owned by a student |
| DeleteCascade.DeletesAgree | student_database.py:321 | both deletes leave the same students, and every remaining student the same evaluations |
| DeleteCascade.OrphansUnobservable | student_database.py:189-345 | the two deletes show the same student list and evaluation lists and export the same files |
| Config.MergeFrom | config_manager.py:32-34 | the merged keys are the file's keys plus the default keys, and every key of the file keeps its value |
| Config.MergeIsUnion | config_manager.py:32-35 | the merge is the map union in which the file's values win over the defaults |
| Config.MergeIdempotent | config_manager.py:32-35 | merging the defaults into an already merged config changes nothing |
| Config.Start | config_manager.py:8-10 | constructing the helper loads the settings; on a first start it writes exactly the settings it holds |
| Config.LoadConfig | config_manager.py:12-42 | a missing file gives the defaults and writes them; an unreadable file gives the defaults; an object file gives the merge, backfilled keys not written back; any other top level is kept only if every default key tests as in it |
| Config.KeepsTopLevelAll | config_manager.py:32-34 | on a non-object, the loop completes iff it is a list or string holding every default key |
| Config.LoadedObjectHasDefaults | config_manager.py:12-42 | whenever the loaded settings are an object, every default key is in them |
| Config.FirstStartRoundTrip | config_manager.py:39-42 | reading the defaults a first start wrote gives the same settings |
| Config.SaveLoadStable | config_manager.py:27-56 | saving the loaded settings and loading them again gives the same settings |
| Config.Set | config_manager.py:62-65 | `k` maps to `v`, every other key is unchanged, whether or not the save succeeds |
| Config.Update | config_manager.py:67-69 | keys of the update take its values, all other keys are unchanged, whether or not the save succeeds |
| Config.GetAfterSet | config_manager.py:58-65 | after `set(k, v)`, `get(k)` is `v` and `get` of any other key is as before |
| Config.GetAfterUpdate | config_manager.py:58-69 | after `update(u)`, `get` reads `u`'s value for its keys and the old value elsewhere |
| Config.UpdateOneIsSet | config_manager.py:62-69 | an update with one key has the same effect as setting it |

## Left out

- The PyQt user interface: widgets, layout, font scaling, message boxes, the file dialogs and the shortcut wiring. Their inputs (field text, selected number) are parameters.
- The selection itself: `on_student_select` only copies the clicked number into the form, so the selected number is a parameter.
- SQLite, the file system and the clock. The store is a value. Whether a settings write succeeds is a parameter. The time stamp `now` is a parameter.
- `float` and `str` on floats are parameters; NaN, infinities and the exact float syntax are not modelled.
- The CSV text codec: quoting, line endings and the UTF-8 byte-order mark. A file is its parsed records.
- The evaluation file name comes from `file_path.replace('.csv', '_evaluations.csv')`, which replaces every occurrence. File paths are not modelled.
- Evaluation row ids: nothing reads them.
- Row order among students with equal numbers, and among evaluations with equal dates: the model fixes insertion order, which SQLite does not promise.
- `update_student` is not wired to any button; it is modelled anyway.
- `delete_evaluation` without a selected student, or with a number that no longer exists, raises inside the slot. The model reports `NoSelection` / `StudentNotFound` and keeps the store.
- `add_evaluation` returns silently when the selected number is gone. The model reports `StudentNotFound` with the store unchanged.
- The backup and restore file copies and `build.py` are outside the modelled core.
- Config.Set: requires an object configuration. When the file holds another JSON value (a list, a string, a number), the source's `set` raises TypeError; that error is not modelled.
- Config.Update: requires an object configuration. When the file holds another JSON value, the source's `update` raises AttributeError; that error is not modelled.
- CsvRoundTrip.RoundTripStudents: a NULL created time does not come back as NULL; export writes it as the empty text and import keeps that text.
- CsvRoundTrip.ReloadedEvaluations: NULL notes do not come back as NULL; export writes them as the empty text and import keeps that text.
- Config.Get: requires an object configuration. When the file holds another JSON value, the source's `get` raises AttributeError; that error is not modelled.
- CsvExchange.ImportCsv: the created and modified times are kept as the file's text. SQLite gives the TIMESTAMP columns NUMERIC affinity, so number-like text such as `3.0e+5` is stored as a number and later shown as `300000`; that conversion is not modelled.
- Dates.IsValidDateCorrect: only ASCII digits are modelled. Python's `\d` and `strptime` also accept other Unicode decimal digits, such as full-width ones, which the model rejects.
- Config.LoadConfig: JSON decoding, and the key order of the written file, are not modelled.

## Findings

| source | as written | input that shows it | evidently intended | confidence | as-written member | corrected member |
|---|---|---|---|---|---|---|
| student_database.py:77-85 | the foreign key has no ON DELETE CASCADE and foreign keys are never switched on, so deleting a student keeps the student's evaluation rows | a student "1" with one evaluation; delete "1"; the evaluation row remains with no student | the test suite builds the schema with ON DELETE CASCADE and `PRAGMA foreign_keys = ON` and asserts the evaluations are gone (tests/test_student_db.py:33, 63, 183-186) | medium, not executed | DeleteCascade.DeleteLeavesOrphans | DeleteCascade.CascadeKeepsOwned |
