# gestion-horas-v2 data layer, modelled in Dafny

This project models the data-access core of an hours-tracking tool. Workers
("trabajadores") are assigned hours per category ("rubro") per year. The
model covers four parts:

- **The JSON flat-file store** (`database/workers_json.py`). It has three
  collections: workers, categories and the hours ledger. Each is a record
  list plus a `next_id` counter.
  - Each collection is a class: `WorkerTable`, `CategoryTable` and
    `HoursTable` in module `WorkersJson`.
  - Each class's fields are the record list (`rows`) and the counter
    (`nextId`). The creators, updaters, the worker delete and the hours
    upsert change these fields.
  - The read-side queries are functions in module `Queries`: the listings,
    the worker's hours joined with category names, the yearly total and the
    per-area summary.
- **The role rules** (`auth/roles.py`), in module `Roles`. The session values
  (`role`, `area`, `trabajador_id`) are passed in as a `Session`. An absent
  key is `None`.
- **The SQLite to JSON migration** (`migrar_a_json.py`), in module
  `Migration`. There is one loop per table, with null-column defaults and a
  running `next_id`.
- **The orphan sweep over SQLite** (`limpiar_horas_huerfanas.py`), in module
  `Orphans`. It covers detection, the operator-confirmed purge and the
  integrity count that follows.

Shared pieces:

- Module `Seqs` holds `Filter` (the list comprehension), `IndexOfKey` (the
  first-match search of `next(...)` and of the `for … break` loops),
  subsequences, and the key predicates `KeysBelow` and `KeysDistinct`.
- Module `Records` holds the record shapes.
- The store's invariant `Valid()` says two things: every id is below the
  counter, and ids are pairwise distinct. For the ledger it also says each
  (worker, category, year) triple appears at most once.

Behaviour kept as the code has it:

- `eliminar_trabajador(..., hard_delete=True)` answers `True`, not counts of
  removed records. It answers `True` even when the id does not exist.
- Email uniqueness is checked only when a worker is created.
  `actualizar_trabajador` writes any email, including one already in use.
- `actualizar_rubro` writes every keyword the record already has, and that
  includes `id`. It is not limited to name, description and active.
- The hard delete removes the worker first and its ledger rows second.
- A missing JSON file is seeded with sample records, not left empty.

## Model

| member | source | states |
|---|---|---|
| WorkersJson.SeedWorkers | database/workers_json.py:18-41 | the seeded workers satisfy the store invariant for `next_id` 3, have distinct emails and are all active |
| WorkersJson.SeedCategories | database/workers_json.py:46-55 | the seeded categories satisfy the invariant for `next_id` 5, have distinct names and are all active |
| WorkersJson.SeedHours | database/workers_json.py:60-69 | the seeded ledger satisfies the invariant for `next_id` 5, including one row per triple |
| WorkersJson.WorkerTable.Seeded | database/workers_json.py:18-41 | a fresh worker store holds the seed and is valid |
| WorkersJson.WorkerTable.Add | database/workers_json.py:110-134 | a taken email (active or not) gives the "El email ya existe" error and changes nothing; otherwise an active record with the counter as id is appended, that id is returned and the counter moves by one; validity is kept, and so are distinct emails |
| WorkersJson.WorkerTable.Update | database/workers_json.py:136-166 | answers whether the id exists; the first record with that id takes the whitelisted keyword values in order; ids and the counter are unchanged; validity is kept |
| WorkersJson.CategoryTable.Seeded | database/workers_json.py:46-55 | a fresh category store holds the seed and is valid |
| WorkersJson.CategoryTable.Add | database/workers_json.py:216-237 | a taken name gives "El rubro ya existe" and changes nothing; otherwise an active category with the counter as id is appended and the counter moves by one; validity is kept, and so are distinct names |
| WorkersJson.CategoryTable.Update | database/workers_json.py:239-263 | answers whether the id exists; every keyword naming an existing key (including `id`) is written; validity is kept when no keyword is `id` |
| WorkersJson.CategoryTable.Deactivate | database/workers_json.py:265-267 | deactivation is the update `activo=False`; it answers whether the id exists and keeps validity |
| WorkersJson.HoursTable.Seeded | database/workers_json.py:60-69 | a fresh ledger holds the seed and is valid |
| WorkersJson.HoursTable.Assign | database/workers_json.py:288-327 | always true; an existing row for the triple gets the new hours in place with the counter unchanged, otherwise a row with the counter as id is appended and the counter moves; at most one row per triple is kept |
| WorkersJson.DeleteWorker | database/workers_json.py:168-185 | hard: true, every record with the id and every ledger row of that worker are removed; soft: the status-inactive update and the ledger untouched; counters never move; both stores stay valid |
| WorkersJson.WorkerKwargsKeepId | database/workers_json.py:156-159 | no sequence of worker keyword arguments changes the id |
| WorkersJson.UpdateKeepsIds | database/workers_json.py:136-166 | a worker update keeps the length and every id, so it keeps the invariant for any counter |
| WorkersJson.CategoryKwargsKeepId | database/workers_json.py:256-259 | category keywords other than `id` never change the id |
| WorkersJson.UpsertRows | database/workers_json.py:302-322 | the counter moves by zero (an existing triple) or one (a new row), the ledger grows by the same amount, and a row with the triple carries the new hours |
| WorkersJson.UpsertKeepsValid | database/workers_json.py:302-322 | the upsert keeps the ledger invariant: ids below the counter, ids distinct, one row per triple |
| WorkersJson.OtherKeysIgnored | database/workers_json.py:156-159 | applying all keyword arguments equals applying only the whitelisted ones |
| WorkersJson.UnnamedKeysKept | database/workers_json.py:156-159 | each field no keyword names keeps its old value, and the id is never reachable |
| WorkersJson.UpdateTouchesOnlyTarget | database/workers_json.py:143-159 | with distinct ids, only the record with the id changes and it becomes the keywords applied to it |
| WorkersJson.SoftDeleteIdempotent | database/workers_json.py:184-185 | deactivating twice equals deactivating once |
| WorkersJson.AddKeepsEmailsUnique | database/workers_json.py:115-116 | since a taken email is refused, a store with distinct emails keeps distinct emails after a create |
| WorkersJson.UpdateMayDuplicateEmail | database/workers_json.py:136-166 | on the seed, giving worker 2 worker 1's email is accepted and leaves two workers with one email |
| WorkersJson.CategoryIdRewriteBreaksCounter | database/workers_json.py:256-259 | on the seed, renumbering category 1 to 5 breaks the invariant, and the next create hands out id 5 twice |
| WorkersJson.UpsertLeavesOneRow | database/workers_json.py:302-322 | after an upsert the triple has exactly one row, carrying the new hours |
| WorkersJson.UpsertTwice | database/workers_json.py:302-322 | latest call wins: two upserts of one triple equal one upsert with the second value |
| Queries.ListWorkers | database/workers_json.py:94-108 | a worker is listed iff it has the status and, when the area is non-empty, that area; table order is kept |
| Queries.ListCategories | database/workers_json.py:204-214 | a category is listed iff it is active or inactive ones were asked for; order is kept |
| Queries.FindCategory | database/workers_json.py:344 | none iff no category has the id; otherwise the first category in the list with that id |
| Queries.HoursForWorker | database/workers_json.py:329-355 | at most one result row per ledger row |
| Queries.HoursComeFromLedger | database/workers_json.py:329-355 | every result row is the join of one of the worker's ledger rows for that year whose category resolves |
| Queries.EnrichFilterIsJoin | database/workers_json.py:338-351 | enriching the selected rows drops exactly the rows whose category does not resolve and joins the rest, in order |
| Queries.HoursForWorkerIsJoin | database/workers_json.py:329-355 | the worker's hours are the ledger rows matching worker, year and a resolvable category, in ledger order, each joined with its category |
| Queries.TotalHours | database/workers_json.py:357-362 | zero when the join is empty |
| Queries.TotalIsLedgerSum | database/workers_json.py:357-362 | the total is the sum of hours over the matching ledger rows whose category resolves |
| Queries.OrphanRowIgnored | database/workers_json.py:343-351 | a ledger row with a missing category changes neither the join nor the total |
| Queries.HardDeleteClearsHours | database/workers_json.py:176-178 | after the hard-delete cascade the worker has no hours and a zero total, for every year |
| Queries.SoftDeleteMovesListing | database/workers_json.py:184-185 | a soft-deleted worker leaves the active listing and appears in the inactive one |
| Queries.CreatedWorkerListed | database/workers_json.py:117-128 | a created (active) worker is listed among active workers, also when its own area is requested |
| Queries.Summarize | database/workers_json.py:372-381 | one row per worker, in order, with name, total, number of joined rows and area |
| Queries.AreaSummary | database/workers_json.py:364-385 | one row per listed active worker of the area, in listing order, carrying that worker's name, its area, its total and its joined-row count |
| Roles.RequireRole | auth/roles.py:7-26 | granted iff a role is present and allowed; "log in first" iff no role |
| Roles.CanEditWorker | auth/roles.py:28-44 | admin always; supervisor iff the worker exists with the session's area; trabajador iff it is their own id; any other role never; a missing role raises |
| Roles.AccessibleWorkers | auth/roles.py:46-61 | admin sees all; supervisor exactly the workers of their area; trabajador exactly their own record; any other role nothing; always a subsequence |
| Roles.AccessibleMeansEditable | auth/roles.py:28-61 | with distinct ids, a worker is accessible iff the session may edit it |
| Migration.MigrateWorkers | migrar_a_json.py:35-48 | records are the rows mapped in order; the counter is one past the largest id (at least 1); distinct source ids give a valid store |
| Migration.MigrateCategories | migrar_a_json.py:68-78 | the same for categories |
| Migration.MigrateHours | migrar_a_json.py:98-109 | records are the rows unchanged; same counter; distinct ids and triples give a valid ledger |
| Migration.WorkerDefaults | migrar_a_json.py:36-44 | empty or null phone and area become "", status defaults to "activo", other columns are copied |
| Migration.CategoryDefaults | migrar_a_json.py:69-74 | a null description becomes ""; a null `activo` is true, otherwise it is whether the integer is non-zero |
| Orphans.WithoutWorker | limpiar_horas_huerfanas.py:20-26 | exactly the ledger rows whose worker id matches no worker, in table order |
| Orphans.WithoutCategory | limpiar_horas_huerfanas.py:37-43 | exactly the ledger rows whose category id matches no category, in table order |
| Orphans.IntegrityCount | limpiar_horas_huerfanas.py:90-96 | at most the ledger size, and zero iff no row lacks its worker or its category |
| Orphans.DeleteIds | limpiar_horas_huerfanas.py:63 | a row is kept iff its id is not in the set |
| Orphans.Purge | limpiar_horas_huerfanas.py:59-72 | the confirmed sweep yields an order-preserving sub-list of the ledger |
| Orphans.SqliteDb.CleanOrphanHours | limpiar_horas_huerfanas.py:9-83 | fetches both lists and reports their summed length; purges iff there is something to report and the answer is yes; otherwise the ledger is unchanged; with distinct ids it deletes exactly the integrity count |
| Orphans.SqliteDb.VerifyIntegrity | limpiar_horas_huerfanas.py:85-102 | the count of remaining orphan rows, zero iff none remain |
| Orphans.SqliteDb.SweepThenVerify | limpiar_horas_huerfanas.py:104-106 | with orphans present and a yes answer the ledger becomes the purged ledger, otherwise it is unchanged; answering yes always ends with a zero integrity count; any other answer leaves it where it was |
| Orphans.OrphanTotal | limpiar_horas_huerfanas.py:52 | the reported total is at most twice the ledger size, and zero iff no row lacks its worker or its category |
| Orphans.TotalCountsDoubleOrphansTwice | limpiar_horas_huerfanas.py:52 | the reported total equals the integrity count plus the rows that lack both worker and category |
| Orphans.ReportsOrphansIffIntegrityFails | limpiar_horas_huerfanas.py:52-54 | the sweep reports something iff the integrity query counts an orphan |
| Orphans.PurgeMembers | limpiar_horas_huerfanas.py:61-70 | a row survives iff its id is in neither non-empty fetched list |
| Orphans.FirstDeleteKeepsRowsWithWorker | limpiar_horas_huerfanas.py:61-63 | with distinct ids, the first delete keeps exactly the rows with a worker |
| Orphans.SecondDeleteKeepsRowsWithCategory | limpiar_horas_huerfanas.py:67-69 | with distinct ids, the second delete keeps exactly the rows with a category |
| Orphans.PurgeLeavesNoOrphans | limpiar_horas_huerfanas.py:59-72 | after a confirmed sweep the integrity query counts zero |
| Orphans.PurgeKeepsExactlyHealthyRows | limpiar_horas_huerfanas.py:59-72 | with distinct ids, a row survives iff it is not an orphan |
| Orphans.PurgeIsHealthy | limpiar_horas_huerfanas.py:59-72 | with distinct ids, the purged ledger is exactly the healthy rows in table order |
| Orphans.PurgeDeletesIntegrityCount | limpiar_horas_huerfanas.py:59-72 | with distinct ids, the number of deleted rows equals the integrity count |
| Orphans.DoubleOrphanOverReported | limpiar_horas_huerfanas.py:52-73 | one row lacking both worker and category is reported as 2 orphans, but 1 row is deleted |

## Left out

- File I/O is not modelled: JSON reading and writing, the latin-1 fallback when decoding, and `print`. Each operation acts on the loaded collection; the write-back is the new field value.
- pandas DataFrames are not modelled: the queries return sequences of records.
- The `datetime.now().year` default is not modelled: the year is a parameter.
- `int(...)` and `float(...)` coercion of call arguments is not modelled: ids are integers and hours are exact reals. Floating-point rounding in sums is not captured.
- The keyword-argument values of the update functions are typed per key. A value of the wrong type is not modelled.
- The relational backend `database/workers.py` is not part of this model. Only its table shapes are used, as the migration and sweep inputs.
- SQLite and console I/O are not modelled. `input().lower() == 's'` is modelled as the answer being "s" or "S".
- SQLite's fetch order is assumed to be table order.
- The migration assumes email is non-null. The column is nullable in SQLite, but the JSON store treats email as text.
- Excluded as consumers of the data layer: the UI pages, login and password handling, notifications, the audit log, Sheets import and export, and the maintenance scripts.
- WorkersJson.CategoryTable.Update: keeps `Valid()` only for keywords other than `id`, because the source lets `id` be rewritten (see `CategoryIdRewriteBreaksCounter`).
- Orphans.SqliteDb.CleanOrphanHours: the exact deleted count is stated only for a ledger with distinct ids. SQLite's primary key guarantees this.

## Findings

| source | as written | input that shows it | evidently intended | confidence | as-written member | corrected member |
|---|---|---|---|---|---|---|
| limpiar_horas_huerfanas.py:52-73 | the total reported and announced as deleted is `len(sin_trabajador) + len(sin_rubro)` | one ledger row whose worker id and category id both match nothing: reported 2, deleted 1 | the number of orphan rows, which is the number deleted | medium, not executed | Orphans.DoubleOrphanOverReported | Orphans.PurgeDeletesIntegrityCount |
