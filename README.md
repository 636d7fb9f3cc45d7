# Accreditation record store: a Dafny model

This project models the record store of the accreditation application. The modelled parts are:

- **The six correlation tables.** These are DataProcess, FacultyCI, ProgramCI, AssessValidity, AccredReport and AnnualReport. Each has its own auto-increment id sequence. One generic DAO (data-access object) stands for all six: `insert`, `get_all`, `filter_by`, `update` and `delete`.
- **`upload_data`.** It fans one student row of an assessment out into six independent inserts.
- **`get_flattened_data_for_export`.** It joins the six tables on the shared id, newest first. It skips every id whose group is incomplete or whose decryption raises.
- **`delete_entry`.** It deletes one id table by table and stops at the first table without it.
- **`delete_user`.**
- **The list logic of the admin views.** This covers the sort and pagination of `api_data_view`, the student search, the export layout, the dashboard counts and the per-row upload loop of `form_submit_view`.
- **The purge script.** It empties the six tables and restarts their sequences at 1.

## Module layout

| module | covers |
|---|---|
| `Records` | field values, records, the six record kinds |
| `Utils` | the external helpers (encryption, cohort, achievement level, Excel escaping) as function-valued fields |
| `Tables` | one table (rows by id plus the id sequence), the DAO operations as functions on it, and the six tables side by side |
| `Fanout` | `upload_data` as a function of the tables |
| `Flatten` | the join |
| `Deletion` | `delete_entry` |
| `Database` | class `Store`, the application's database, whose methods change it in place |
| `Sorting` | Python's stable `sorted` with `reverse` |
| `Views` | the view computations |
| `Purge` | the purge script |

## Decisions

**Ids and sequences.**
- Ids start at 1.
- A table is valid when every id in use is below its sequence value.
- `full_clean` runs before `save`, so a failed validation does not advance the sequence.

**Validators and helpers.**
- The validators of the six models are one parameter, `Validator`. It returns the field-keyed errors, or None.
- The helpers of the utils module are function-valued fields of `Helpers`. The helpers that can raise (the cohort, the achievement level and the two decryptions) return an `Option`, None standing for the exception. `encrypt` and `make_excel_safe` are total functions, assumed never to raise.
- Every property holds whatever those functions compute.

**The clock.** The creation timestamp of a DataProcess row is passed in as `now`, and the `datetime.now()` that `form_submit_view` stores in `last_uploaded` as `clock`.

**Faculty profiles** are keyed by the id of their user, one per user.

**The six DAOs.** The six DAO classes (`backend/accreditation/database.py:218-262` for DataProcess, and the five copies after it) are identical up to the model class. They are modelled once, with the table as a `Kind` argument.

**Sorting.**
- `api_data_view` sorts with Python's `sorted`. It raises `TypeError` when it compares keys of different types, for example a string with a number, or None's placeholder string with a number. That error, and the `ZeroDivisionError` of a zero page size, both become the 500 response.
- The model states this as follows: with two or more rows whose keys are not all of one kind, the answer is the 500 response.
- A stable sort compares every adjacent pair of its output, so mixed kinds always reach such a comparison.

**Behaviour worth knowing:**
- **None under descending order.** The comment at `backend/accreditation/views.py:362` calls `'zzzzzzzzzz'` a "high value for desc". But `sorted` with `reverse=True` puts the highest key first, so a row whose value is None comes *before* every row whose value sorts below `'zzzzzzzzzz'`, where the comment expects it last. A value above the placeholder, such as a name starting with a letter past `z` like "Émond", still comes before it. `Views.NoneFirstDescending` states this.
- **Record numbers of an empty page.** A page past the end has `start_record` 0, but `end_record` is its start index, not 0 (`Views.RecordNumbers`).
- **Encryption calls.** `upload_data` calls `encrypt` at each insert: the score three times and the student id twice.

## Model

| member | source | states |
|---|---|---|
| Tables.Below | backend/accreditation/database.py:124 | the ids in use below the sequence, each exactly once, strictly decreasing |
| Tables.Table.Insert | backend/accreditation/database.py:220-229 | a save happens exactly when validation passes, and the table stays valid |
| Tables.InsertSemantics | backend/accreditation/database.py:220-229 | a valid insert stores the record under the sequence's next id, which no row held, keeps every other row and advances the sequence; an invalid one returns the field errors and changes nothing |
| Tables.Table.Delete | backend/accreditation/database.py:254-260 | True exactly when the id was present; afterwards the id is gone, every other row and the sequence are unchanged |
| Tables.Table.FilterBy | backend/accreditation/database.py:236-237 | a row is returned exactly when every keyword equals its field, with its stored value |
| Tables.FilterByNothing | backend/accreditation/database.py:232-237 | `filter_by()` with no keywords returns what `get_all` returns |
| Tables.FilterById | backend/accreditation/database.py:236-237 | filtering on the primary key finds that one row, or nothing |
| Tables.FilterByConjunction | backend/accreditation/database.py:236-237 | keywords on different fields combine as a conjunction: one filter equals two filters in sequence |
| Tables.Table.NewestFirst | backend/accreditation/database.py:124 | the ids in use, each once, strictly decreasing |
| Tables.Tables.HasGroupEverywhere | backend/accreditation/database.py:129-134 | the six `get(id=id)` calls all succeed exactly when each of the six tables holds the id |
| Fanout.Derive | backend/accreditation/database.py:41-43 | the derivation succeeds exactly when both the cohort and the achievement level succeed, and carries their values |
| Fanout.FanOut | backend/accreditation/database.py:46-118 | each table receives its own record through its own insert, independent of the others' outcome |
| Fanout.Upload | backend/accreditation/database.py:19-121 | a failed derivation is caught before any insert and changes nothing; otherwise the six inserts run |
| Fanout.FanOutAttempts | backend/accreditation/database.py:46-118 | the six attempts, in the fixed table order; each is saved under its table's next id when valid, and otherwise returns its errors |
| Fanout.FanOutKeepsAlignment | backend/accreditation/database.py:46-118 | from aligned sequences, an all-valid group lands on the same id in all six tables, and the sequences stay aligned one further on |
| Fanout.FanOutAlignedExactly | backend/accreditation/database.py:46-118 | from aligned sequences, they stay aligned exactly when all six inserts succeed or all six fail |
| Fanout.FailedInsertBreaksGroup | backend/accreditation/database.py:46-121 | one failed insert leaves the DataProcess id without its complete group |
| Fanout.GroupSharesDerivations | backend/accreditation/database.py:42-118 | the cohort and the achievement level computed once reach every table that stores them |
| Fanout.UploadStoresGroup | backend/accreditation/database.py:46-118 | a successful insert stores exactly the record the upload built for that table |
| Fanout.FanOutKeepsRows | backend/accreditation/database.py:46-118 | existing rows in every table are kept unchanged |
| Fanout.UploadKeepsAlignment | backend/accreditation/database.py:19-121 | an upload that derives and validates lands its group on the next id, keeps every earlier complete group and keeps the sequences aligned |
| Fanout.UploadPlacesGroup | backend/accreditation/database.py:46-118 | an upload that derives and validates, from aligned sequences, puts each table's own record of the group on the next id, and keeps every earlier row unchanged |
| Fanout.GroupRecord | backend/accreditation/database.py:46-115 | the keyword arguments `upload_data` passes to each table's insert; only the DataProcess record carries `created_at` |
| Fanout.GroupRecordFields | backend/accreditation/database.py:46-115 | the record each table receives holds every field the export join reads from that table |
| Fanout.GroupRecordEncryptsNames | backend/accreditation/database.py:46-115 | wherever the instructor's names are stored, they are stored encrypted |
| Fanout.GroupRecordEncryptsStudent | backend/accreditation/database.py:46-115 | wherever the student id or the score is stored, it is stored encrypted |
| Flatten.Zip | backend/accreditation/database.py:136-163 | a dict literal: its keys are exactly the names written, and a name written once maps to the value written beside it |
| Flatten.JoinRecords | backend/accreditation/database.py:136-163 | the joined row has exactly the 26 export field names as keys, and carries its id under "id" |
| Flatten.Join | backend/accreditation/database.py:128-168 | a row exists exactly when all six tables hold the id and the four decryptions succeed |
| Flatten.Included | backend/accreditation/database.py:127-168 | an id is kept exactly when it was walked and its join succeeds |
| Flatten.IncludedDecreasing | backend/accreditation/database.py:124-168 | skipping ids keeps the newest-first order strict |
| Flatten.JoinAll | backend/accreditation/database.py:125-170 | one row per kept id, in the same order, each the join of its id |
| Flatten.JoinAllAppend | backend/accreditation/database.py:127-168 | walking one more id appends its row exactly when its join succeeds |
| Flatten.FlattenedRows | backend/accreditation/database.py:123-170 | the view holds one row per kept id, each the join of its id and carrying it |
| Flatten.ViewIds | backend/accreditation/database.py:124-168 | the view's ids strictly decrease, and an id appears exactly when its group is complete and decrypts |
| Flatten.Flattened | backend/accreditation/database.py:123-170 | one row per kept id, in the same order, row i carrying the i-th kept id |
| Flatten.IncompleteGroupSkipped | backend/accreditation/database.py:128-168 | an id missing from any table never appears in the view |
| Deletion.DeleteGroup | backend/accreditation/database.py:178-190 | the deletes in order, stopping at the first table without the id; the tables stay valid |
| Deletion.FirstMissing | backend/accreditation/database.py:178-189 | the position of the first table lacking the id: all tables before it hold the id, and it does not |
| Deletion.DeleteGroupStopsAtFirstMissing | backend/accreditation/database.py:178-190 | True exactly when no table lacks the id; the tables before the first missing one lose it, and every other table is unchanged |
| Deletion.GroupOrderComplete | backend/accreditation/database.py:178-189 | the fixed order names each table exactly once |
| Deletion.DeleteAllSpec | backend/accreditation/database.py:178-190 | over any order naming each table once: True exactly when every table holds the id, and then every table is its delete of the id; in any case each table either is its delete of the id or is unchanged |
| Deletion.DeleteEntrySpec | backend/accreditation/database.py:172-190 | `delete_entry` returns True exactly when the group is complete; then the id is in no table; other rows are kept, and no id is added |
| Database.Store.Insert | backend/accreditation/database.py:220-229 | the chosen table becomes its DAO insert; the other five, the users and the profiles are unchanged |
| Database.Store.Update | backend/accreditation/database.py:240-251 | a missing id returns None and changes nothing; otherwise the row with the keywords set is validated, and either saved under the same id or rejected with its errors and nothing saved |
| Database.Store.Delete | backend/accreditation/database.py:254-260 | True and the row removed when present; False and nothing changed otherwise |
| Database.Store.UploadData | backend/accreditation/database.py:19-121 | the tables and the attempt log are those of `Upload`; users and profiles are unchanged |
| Database.Store.InsertGroup | backend/accreditation/database.py:46-118 | the six inserts in place give exactly the tables and attempts of `FanOut` |
| Database.Store.GetFlattenedDataForExport | backend/accreditation/database.py:123-170 | the loop returns the flattened view |
| Database.Store.DeleteEntry | backend/accreditation/database.py:172-190 | the six deletes in place, with early return, give exactly `DeleteGroup` in the fixed order |
| Database.Store.MarkUploaded | backend/accreditation/views.py:308-311 | the profile lookup fails exactly when the user has no profile, and then nothing changes; otherwise the profile's `last_uploaded` becomes the clock and nothing else changes |
| Database.Store.DeleteUser | backend/accreditation/database.py:192-214 | an unknown user gives False and no change; otherwise the user and their profile, if any, are removed and the result is True |
| Sorting.TextLessIrreflexive | backend/accreditation/views.py:366 | no string sorts before itself |
| Sorting.TextLessTransitive | backend/accreditation/views.py:366 | string order is transitive |
| Sorting.TextLessTotal | backend/accreditation/views.py:366 | any two distinct strings are ordered one way or the other |
| Sorting.LessIsStrictOrder | backend/accreditation/views.py:366 | the comparison of keys is a strict order, total on keys of one kind |
| Sorting.BeforeIsStrictOrder | backend/accreditation/views.py:366 | the comparison stays a strict order under `reverse` |
| Sorting.InsertBy | backend/accreditation/views.py:366 | insertion adds exactly the one element |
| Sorting.SortBy | backend/accreditation/views.py:366 | the sorted list is a permutation of the input |
| Sorting.InsertBySorted | backend/accreditation/views.py:366 | inserting into a sorted list keeps it sorted |
| Sorting.SortBySorted | backend/accreditation/views.py:366 | the output is ordered by key, ascending, or descending under `reverse` |
| Sorting.InsertByStable | backend/accreditation/views.py:366 | an inserted element goes after every element with the same key |
| Sorting.SortByStable | backend/accreditation/views.py:366 | stability: the elements with any one key keep their relative order, in both directions |
| Sorting.WithKey | backend/accreditation/views.py:408 | the selection is no longer than its input |
| Sorting.WithKeyAppend | backend/accreditation/views.py:408 | selecting from a concatenation concatenates the selections |
| Sorting.WithKeyMembers | backend/accreditation/views.py:408 | an element is selected exactly when it is in the input and has the key |
| Views.FloorDiv | backend/accreditation/views.py:372 | `//` rounds toward minus infinity, for either sign of the divisor |
| Views.SliceBound | backend/accreditation/views.py:369 | a slice bound as Python normalises it: in range it is kept, a negative one counts from the end, and the result is clipped to the list |
| Views.PySlice | backend/accreditation/views.py:369 | `xs[start:stop]` is the run of consecutive elements from the normalised start up to the normalised stop: empty when the stop is not past the start, otherwise exactly stop minus start elements long, and `xs[start..stop]` when both bounds are in range |
| Views.SortKey | backend/accreditation/views.py:358-363 | the sort key is never None: None is replaced by its placeholder |
| Views.SortRows | backend/accreditation/views.py:366 | the sorted rows are the same rows, as many of them |
| Views.Comparable | backend/accreditation/views.py:358-366 | every two sort keys can be compared exactly when every key has the kind of the first |
| Views.Paginate | backend/accreditation/views.py:369-387 | the pagination echoes the page and page size and counts all records |
| Views.ApiData | backend/accreditation/views.py:349-392 | the 500 response happens exactly when the page size is 0 or two or more rows have keys of different kinds; otherwise the page is the pagination of the sorted rows |
| Views.PageIsWindow | backend/accreditation/views.py:349-369 | for page and size of at least 1, the page is the window from `(page-1)*page_size` clipped to the list, at most `page_size` rows |
| Views.TotalPagesIsCeiling | backend/accreditation/views.py:372 | `total_pages` is the ceiling of records over page size |
| Views.RecordNumbers | backend/accreditation/views.py:369-374 | a page is empty exactly when it starts past the end; a non-empty page is numbered from its start index plus 1 and ends within the list; an empty one has start 0 and end equal to its start index |
| Views.PageExample | backend/accreditation/views.py:349-387 | 25 rows, page 3 of size 10: five rows, records 21 to 25, three pages |
| Views.SortRowsSpec | backend/accreditation/views.py:358-366 | the sorted rows are a permutation, ordered by key (descending under `desc`), with equal keys in their original order |
| Views.NoneFirstAscending | backend/accreditation/views.py:358-366 | under `asc` a None row precedes every row with a non-empty string |
| Views.NoneFirstDescending | backend/accreditation/views.py:358-366 | under `desc` a None row also comes first, before every string below the placeholder |
| Views.NoneInNumericColumnFails | backend/accreditation/views.py:358-392 | a None beside a number in the sort column makes the view answer 500 |
| Views.StudentSearch | backend/accreditation/views.py:398-408 | the 400 error exactly when the student id is empty |
| Views.StudentSearchSpec | backend/accreditation/views.py:398-408 | the results are exactly the entries with that student id, in their order, and searching a concatenation concatenates the results |
| Views.Reverse | backend/accreditation/views.py:185 | `[::-1]`: same length, element i is element n-1-i |
| Views.Header | backend/accreditation/views.py:187-199 | the header row has one column per field, the id first |
| Views.ExportRow | backend/accreditation/views.py:202 | one cell per field name, the first being the id made Excel-safe |
| Views.ExportColumns | backend/accreditation/views.py:187-202 | every cell of a data row holds, made Excel-safe, the field that the header names above it |
| Views.ExportSheet | backend/accreditation/views.py:185-202 | the header, then data row i is the export of the i-th record from the end |
| Views.ExportOfViewOldestFirst | backend/accreditation/views.py:185-202 | exporting the view gives one row per kept id, each starting with its id, with ids increasing: oldest first |
| Views.Courses | backend/accreditation/views.py:164 | a value is counted exactly when some entry has it as a non-empty `course`; every counted course is non-empty, and there are no more of them than entries |
| Views.FacultyNames | backend/accreditation/views.py:165-167 | a string is counted exactly when some entry with both names set joins them to it as "first last"; there are no more counted names than entries |
| Views.DashboardCounts | backend/accreditation/views.py:155-167 | the dashboard lists the first ten entries; `total_courses` is the number of distinct courses and `total_faculty` the number of distinct faculty names |
| Views.DashboardBounds | backend/accreditation/views.py:159-167 | at most ten entries shown, and at most one course and one faculty name counted per entry |
| Views.FacultyNameCollision | backend/accreditation/views.py:165-167 | two different name pairs with the same joined string count as one faculty member |
| Views.UploadAll | backend/accreditation/views.py:282-305 | the uploads in order leave valid tables |
| Views.UploadAllKeepsAlignment | backend/accreditation/views.py:282-305 | from aligned sequences, rows that derive and validate each get their own id, present in all six tables, and the sequences stay aligned |
| Views.UploadAllPlacesGroups | backend/accreditation/views.py:282-305 | from aligned sequences, with rows that derive and validate, row i's group sits on the i-th id from the start, each table holding its own record of it there; earlier rows are unchanged |
| Views.FormSubmit | backend/accreditation/views.py:253-326 | a reported error or an empty list is answered without any change; a failed `int()` fails without any change; otherwise `upload_data` runs once per row, in order, with the same assessment fields, and those uploads stay; the answer is success exactly when the uploader is a superuser or has a profile, whose `last_uploaded` then becomes the clock; a missing profile fails after the uploads |
| Purge.Purge | backend/purge_db.py:4-17 | after the script every table is empty and every sequence stands at 1; users and profiles are unchanged |
| Purge.PurgedIsEmptyAndAligned | backend/purge_db.py:4-17 | the purged tables are empty, their sequences equal, and no group is complete |
| Purge.FirstInsertAfterPurge | backend/purge_db.py:11-17 | the first valid insert into any table after the purge gets id 1 |
| Purge.FlattenedAfterPurge | backend/purge_db.py:4-9 | the flattened view is empty after the purge |
| Purge.UploadAfterPurge | backend/purge_db.py:11-17 | uploads after the purge put the group of row i (counting from 0) on id i + 1, each table holding its own record of it there, and keep the sequences aligned |

## Left out

- HTTP plumbing is not modelled: request parsing, authentication, login and registration, decorators, redirects, templates and the construction of JSON and HTTP responses. Responses are datatypes.
- The bodies of the helpers of the utils module are not modelled, nor `read_csv`. That module is not part of this model. `encrypt`, `decrypt`, `get_cohort`, the achievement level and `make_excel_safe` are uninterpreted functions, and no encryption round trip is claimed.
- `encrypt` is modelled as a function of its argument. A randomised cipher would store different ciphertexts in each table. No property here compares ciphertexts across tables.
- The validators of the models (`full_clean`) are not modelled; models.py is not part of this model. They are one uninterpreted `Validator`. An insert whose keyword arguments raise before validation counts as a failed validation.
- Floating-point and decimal arithmetic are not modelled: `round(..., 2)`, `Decimal(str(...))` and the values of numeric fields are opaque values.
- The clock is not read: `created_at` is the parameter `now`, and the `last_uploaded` value is the parameter `clock`.
- Logging (`print`) is not modelled, and the Postgres syntax of `ALTER SEQUENCE` is reduced to its effect on the sequence.
- Concurrency is not modelled. There is one sequential caller and no transactions.
- Query laziness, Django's lookup syntax (`field__op`), cascades and database errors other than "not found" are not modelled.
- Tables.Table.Insert: a row holds the keyword arguments as they were passed, not the values `full_clean` cleans with each field's `to_python`. So the POST strings of `assess_weight` and `total_score` stay text, and `api_data_view` sorts them as text. Lookups (`Tables.Table.FilterBy`, the `get` of `Database.Store.Update` and `Database.Store.Delete`) compare values exactly, without Django's coercion. `created_at` is passed with the DataProcess record and goes through the `Validator`, where `save` would stamp it.
- Database.Store.Update: a keyword named `id`, which would change the primary key, is stored as an ordinary field. So is any keyword that names no field of the model, which Django's `full_clean` would ignore and `save()` would not write: in the model the row keeps it, and later filters and updates see it.
- Database.Store.DeleteUser: at most one Faculty profile per user is assumed. Several would make `get` raise `MultipleObjectsReturned`, and then the user would not be deleted.
- Fanout.FanOut: `encrypt` is assumed never to raise. If it raised in the middle of the fan-out, the inserts before it would stay, the later ones would be skipped, and the `except` of `upload_data` would swallow the error.
- Views.ExportRow: `make_excel_safe` is assumed never to raise.
- Views.FormSubmit: all rows of one submission get the same `created_at`, the parameter `now`. In the source each save stamps its own row, so the rows of one CSV may carry different times; the placement lemmas (`Views.UploadAllPlacesGroups`, `Purge.UploadAfterPurge`) state record equality with that one shared stamp.
- Views.FormSubmit: at most one Faculty profile per user is assumed, so `MultipleObjectsReturned` is not modelled. The failure's message (the exception text) is not modelled, and `Failed` carries none.
- Views.ApiData: which pair of keys Python's sort compares is not modelled. Only the outcome is: keys of different kinds among two or more rows give the 500 response.
- Views.FacultyNames: names that are not strings are not formatted with `str()`; only string names are counted.
- Views.StudentSearch: the `try`/`except` around the search in `student_search_api` is not modelled, since nothing in the modelled search raises.
