# Acelab enrolment server — a Dafny model

The system is a small Node/Express back end for a tutoring centre's enrolment
form. Parents post a submission. An administrator logs in with an e-mail and
password and receives a bearer token. With it the administrator can list
submissions (live, trashed or all, newest first), open one, trash and restore
it, delete it for good, export everything as CSV, take a backup of the data
file and change the password. Every save of the data file first copies it to
a backup named after the local date-time, and only the 30 backups with the
largest names, that is the latest local date-times, are kept. A separate
one-off script, `migrate.js`, copies the JSON data file into an SQLite table,
skipping ids that are already there.

The model is split into these modules:

- `Text` (text.dfy): ECMAScript white space and `trim`, `split`/`join` on one
  character, code-point string order, and decimal digits with zero padding.
- `Json` (json.dfy): JavaScript values and the operators the code relies on:
  truthiness, `||`, `??`, property access, `===`, `String()` and `Array.join`,
  and which values `String()` converts without throwing.
- `Sorting` (sorting.dfy): an insertion sort over any total preorder, proved
  ordered, a permutation and stable.
  It stands for `Array.prototype.sort`.
- `Submissions` (submissions.dfy): intake validation, the new record, the
  trashed test, the timestamp, the listing filter and order, lookup by id,
  removal, and the trash/restore field writes.
- `Csv` (csv.dfy): `escapeCsv` (the quoting rule of section 2 of RFC 4180,
  triggered only by `"`, `,` and line feed), `buildCsv`, and a reader that
  recovers every cell from an export.
- `Auth` (auth.dfy): `getToken` (the `Bearer` scheme of section 2.1 of RFC 6750
  with a `?token=` fallback) and `requireAdmin`.
- `Backups` (backups.dfy): `getBackupTimestamp`, the backup file names, and
  their parsing and local date-time order. It also holds the name selection of
  `pruneBackups`.
- `Server` (server.dfy): the admin configuration and the `Server` class.
  The class holds the submission list, the session set, the admin file and
  the backup directory listing. It has one method per route, plus
  `pruneBackups`, `createBackup` and `saveSubmissions`.
- `Migrate` (migrate.dfy): the row built from each JSON element, and the
  insert loop over a table keyed by id.

The clock, the UUID generator and date parsing are parameters. A request is
its `Authorization` header, its query and its parsed body. The file system
appears as the values the server reads and writes: the stored submission
list, the parsed admin file and the names in the backup directory. The admin
file is `None` when it cannot be read or parsed. A missing admin file is
first written with the default credentials (`ensureAdminFile`), so it reads
as `DefaultAdminFile()`.

## Model

| member | source | states |
|---|---|---|
| Json.ToStr | server.js:160 | `String(value)` is defined exactly on the values it converts without throwing: not on an object with its own `toString` key, nor on an array holding such a value. A string converts to itself and any other object to `[object Object]` |
| Json.HasTextIff | server.js:119-121 | `hasText` holds exactly for strings with a character that is not white space |
| Text.TrimEmptyIff | server.js:120 | a string trims to empty exactly when it is all white space |
| Auth.GetToken | server.js:123-133 | a token is never empty, and one is found exactly when the header or the query yields one |
| Auth.HeaderTokenIff | server.js:124-128 | the header yields `t` exactly when it splits on spaces into two parts, the first is `Bearer` in any case and `t` is the non-empty second |
| Auth.HeaderTakesPrecedence | server.js:126-131 | a well-formed bearer header wins over any query token |
| Auth.QueryFallback | server.js:124-132 | when the header yields no bearer token (absent, another scheme, or malformed), a string `token` query gives its trimmed value, or nothing when it is blank |
| Auth.NoHeaderNoToken | server.js:124 | a request without an `Authorization` header yields no header token |
| Auth.CanonicalScheme | server.js:126 | the literal scheme `Bearer` is accepted |
| Auth.BearerToken | server.js:124-128 | the header `Bearer <token>` with a non-empty token free of spaces yields exactly that token |
| Auth.IssuedTokenAuthorizes | server.js:135-141 | a request presenting an issued token as `Bearer <token>` is admitted |
| Auth.PrototypeNameBypass | server.js:137 | as written, `Bearer constructor` is admitted with no session at all; the intended check refuses it |
| Auth.AsWrittenDiffersOnlyOnPrototypeNames | server.js:135-141 | the written check and the intended one disagree exactly on tokens that are inherited `Object.prototype` names and not sessions |
| Submissions.CheckPayloadIff | server.js:207-223 | a payload is accepted exactly when it is an object with five visible required strings and a non-empty subjects array; non-objects get the invalid-payload error, deficient objects the missing-fields error |
| Submissions.NewRecord | server.js:225-231 | as written: the record keeps every payload field except the three server-set ones; `id` is the payload's own if present, else the fresh UUID; `submittedAt` is now, `isTrashed` false, `trashedAt` null |
| Submissions.FreshRecord | server.js:225-231 | the intended record: it always carries the fresh UUID and is live, with `submittedAt` now and `trashedAt` null; it keeps every payload field except `id`, `isArchived`, `archivedAt` and the three server-set ones |
| Submissions.FreshRecordAsWritten | server.js:225-231 | for a payload without `id`, `isArchived` and `archivedAt`, the intended record is the one the code builds |
| Submissions.PayloadIdDuplicates | server.js:226-227 | as written, a payload carrying a stored record's id leaves two records with that id, and after the first is deleted the id is still found |
| Submissions.PayloadArchivedHidden | server.js:225-231 | as written, a payload with `isArchived: true` is stored trashed with a null `trashedAt`, breaking the record invariant, and the default listing hides it |
| Submissions.FilterBy | server.js:297-306 | the kept records are exactly the selected ones |
| Submissions.FilterByCounts | server.js:297-306 | the filter keeps every copy of a selected record and no copy of any other, so its result is a sub-multiset of the store |
| Sorting.SortStable | server.js:307 | the sort is stable: for every element, the elements it ties with appear in the result in their input order |
| Submissions.ListViewStable | server.js:307 | records with equal timestamps appear in the listing in their stored order, and the records tied with a given one are exactly the selected ones with its timestamp |
| Submissions.ListViewSpec | server.js:295-309 | the listing is a permutation of the filtered records in non-increasing timestamp order; `'true'` selects exactly the trashed, `'all'` everything, anything else exactly the live ones |
| Submissions.FindById | server.js:313 | -1 exactly when no record has the id, otherwise the first index that has it |
| Submissions.RemoveAt | server.js:363 | one element fewer, the others in their order |
| Submissions.RemovedIsGone | server.js:358-363 | with unique ids (which every route keeps, see below), after deleting the found record the id is no longer found |
| Submissions.RemoveKeepsIdsUnique | server.js:363 | deleting a record keeps the remaining ids unique |
| Submissions.MarkKeepsIdsUnique | server.js:327-348 | trashing or restoring a record keeps the ids unique |
| Submissions.AppendKeepsIdsUnique | server.js:225-234 | appending the intended record under a UUID no record has keeps ids unique, whatever the payload holds, and a lookup of that UUID finds the new record |
| Submissions.AppendFresh | server.js:234 | appending any record under a fresh id keeps ids unique and finds it at the end |
| Submissions.MarkTrashed | server.js:327-330 | `isTrashed` and `isArchived` become `true` and both timestamps now; the keys are the old ones plus these four, and every other field is kept |
| Submissions.MarkRestored | server.js:345-348 | `isTrashed` and `isArchived` become `false` and both timestamps null; the keys are the old ones plus these four, and every other field is kept |
| Submissions.TransitionsConsistent | server.js:225-348 | an intended new record, a trashed record and a restored record each have a trashed timestamp exactly when `isTrashed(record)` holds; a record built as written does exactly when the payload does not set `isArchived: true` |
| Submissions.TrashThenList | server.js:296-330 | after trashing, the record appears in the trashed listing and not in the default one |
| Submissions.RestoreThenList | server.js:296-348 | after restoring, the record appears in the default listing and not in the trashed one |
| Csv.EscapeCsv | server.js:156-165 | defined for the values `String` converts, since `escapeCsv` throws on any other: null and undefined give the empty string; a text without `"`, `,` or line feed is unchanged; a text with one is wrapped in quotes |
| Csv.DoubleQuotes | server.js:162 | every `"` is doubled: the length grows by the number of quotes |
| Csv.EscapeNickname | server.js:156-165 | a text holding a quoted part is wrapped and its quotes doubled |
| Csv.EscapeExample | server.js:156-165 | `O'Brien, "Jr"` becomes `"O'Brien, ""Jr"""` |
| Csv.ReadEscaped | server.js:156-165 | reading an escaped field back gives the original text |
| Csv.Cells | server.js:181-192 | for a record the export gets through: ten cells, none of them null or undefined, each one that `String` converts |
| Csv.CellEscaping | server.js:181-195 | for a record the export gets through, each cell is escaped as its `String` text |
| Csv.ReadLineEscaped | server.js:195 | a line of escaped fields joined by commas reads back as those fields |
| Csv.ReadDocumentLines | server.js:194-196 | lines joined by line feeds read back as those lines |
| Csv.ExportReadsBack | server.js:167-197 | when every record converts (so `buildCsv` does not throw), reading the export gives the ten headers, then one row per submission, in order, holding that submission's cell texts |
| Csv.AcceptedExportable | server.js:156-231 | the record stored for an accepted payload exports exactly when its `studentEmail`, `subjects`, `discoverySource` and `specificNeeds` all convert with `String`; intake checks none of them |
| Csv.ToStringKeyBlocksExport | server.js:156-231 | any accepted payload, given an object with its own `toString` key as `specificNeeds`, is still accepted, and the record stored for it does not export |
| Text.SplitJoin | server.js:125 | joining the parts of a split gives back the text |
| Backups.TimestampRoundTrip | server.js:50-59 | the `YYYY-MM-DD-HH-MM-SS` timestamp of a four-digit-year date parses back to the same date |
| Backups.FieldsDigits | server.js:50-58 | the year has four digits, the other five fields are zero-padded to two digits, and each reads back as its number |
| Text.Pad2Digits | server.js:51 | `padStart(2, '0')` of a number below 100 is two digits that read back as the number |
| Backups.BackupNameOrder | server.js:63-82 | for four-digit years, backup names sort as text exactly in the order of their local date-times |
| Backups.BackupFiles | server.js:63-65 | the kept names are exactly the listed ones starting with `submissions-` and ending with `.json` |
| Backups.ByNameTotalPreorder | server.js:66 | the default string order is a total preorder, so the sorted listing is ordered |
| Backups.PruneOnlyBackups | server.js:61-76 | pruning deletes only listed backup names and never touches another file |
| Backups.PruneOldestFirst | server.js:66-75 | every deleted name is strictly smaller than every backup name that remains |
| Backups.PruneCount | server.js:68-75 | exactly min(count, 30) backups remain |
| Server.LoadAdminConfig | server.js:96-108 | no config exactly when the file cannot be read or parsed or holds `null`; otherwise both fields are truthy, and each stored field is kept when truthy and replaced by its default when falsy |
| Server.AdminConfigRoundTrip | server.js:96-117 | loading a saved config gives it back, and the default file gives the default credentials |
| Server.PasswordCheck | server.js:269-275 | the change is allowed exactly when the current password is visible text equal to the stored one and the new one is visible text of at least 8 UTF-16 units; a failed current-password check gives the wrong-password message; a passed one with a failed new-password check gives the too-short message |
| Server.ChangeRefusal | server.js:262-275 | the change goes ahead exactly when the request is authorized, the config loads and the password checks pass; 401 comes first, then 500, then 400 with the message of the failed check |
| Server.NewBackupSurvives | server.js:78-87 | a backup named above every existing backup survives its own pruning, at most 30 backups remain, and other files stay |
| Server.NewestBackupSurvives | server.js:50-87 | a backup whose local date-time is not before that of any existing backup survives its pruning (an existing backup of the same name is the one its copy overwrites) |
| Server.Server.constructor | server.js:21-39 | the server starts with the stored records, the admin file, the backup listing and no sessions |
| Server.Server.PruneBackups | server.js:61-76 | the `for` loop deletes exactly the selected smallest names and nothing else changes |
| Server.Server.CreateBackup | server.js:78-87 | the returned name is the timestamped name, and the listing is the old one with it added and then pruned |
| Server.Server.SaveSubmissions | server.js:41-44 | the new list replaces the stored one after a backup |
| Server.Server.Submit | server.js:207-240 | a refused payload gives its 400 message and changes nothing; an accepted one appends exactly the intended new record, with a backup, and replies ok; under a UUID no record has, the ids stay unique |
| Server.Server.Login | server.js:242-260 | 500 without a config; 401 and no new session unless both email and password are strictly equal; otherwise the fresh token becomes a session and is returned |
| Server.Server.ChangePassword | server.js:262-288 | a refusal changes nothing; success saves the new password with the old email, takes a backup, revokes only the presenting token (so the same request is no longer admitted) and replies ok |
| Server.Server.Backup | server.js:290-293 | 401 without a session; otherwise a backup is taken and its name returned |
| Server.Server.List | server.js:295-309 | 401 without a session; otherwise 200 with exactly the records of `ListView`: a permutation of the selected records in non-increasing timestamp order |
| Server.Server.Get | server.js:311-318 | 401, then 404 when no record has the id, otherwise the first record with it |
| Server.Server.Trash | server.js:320-336 | 401 or 404 change nothing; otherwise only the first matching record is marked trashed, with a backup; unique ids stay unique |
| Server.Server.Restore | server.js:338-354 | 401 or 404 change nothing; otherwise only the first matching record is marked restored, with a backup; unique ids stay unique |
| Server.Server.PermanentDelete | server.js:356-369 | 401 or 404 change nothing; otherwise exactly the first matching record is removed, with a backup; with unique ids the id is then no longer found, and the ids stay unique |
| Server.Server.Export | server.js:371-377 | 401 without a session; the uncaught 500 when any record holds a value `String` cannot convert, whatever the other records hold; otherwise `submissions.csv`, whose text reads back as the headers and one row per record |
| Migrate.SubjectsColumn | migrate.js:43 | an array whose elements convert is joined with bare commas; another truthy value is kept; a falsy one becomes `''` |
| Migrate.RowColumns | migrate.js:35-48 | the charity flag is 1 exactly when either spelling is truthy, the trashed flag 1 exactly when `isTrashed` is truthy, else 0; `trashedAt` is null exactly when falsy and kept otherwise; the three optional texts are kept when truthy and `''` otherwise; the rest are copied |
| Migrate.NewRecordRow | migrate.js:35-48 | a record `POST /submit` stores (the intended one) migrates live, with its id and submission time |
| Migrate.Elements | migrate.js:13-22 | a missing, unparsable or non-array file gives no elements; an array gives its items |
| Migrate.NoOpInputs | migrate.js:13-22 | such inputs, and an empty array, leave the table unchanged |
| Migrate.ExistingRowsKept | migrate.js:28-29 | rows already present are never changed or removed |
| Migrate.KeyPresent | migrate.js:27-49 | every element with a text id whose turn does not fail and whose subjects join has a row under that id afterwards |
| Migrate.FirstRowWins | migrate.js:25-55 | the first element carrying a new id, if its row builds, supplies that row, whatever fails on other elements |
| Migrate.KeyAbsent | migrate.js:28-29 | no row appears under an id no element carries |
| Migrate.RerunAddsNoKeyedRows | migrate.js:28-29 | after a run without failures, a second run adds or changes no row with a text id |
| Migrate.RerunRepeatsKeylessRows | migrate.js:28-35 | an element without an id whose row builds is inserted again by every run |
| Migrate.UnjoinableRowSkipped | migrate.js:43-54 | an element whose subjects hold an object with its own `toString` key throws in `join`; the catch skips it and the table is unchanged |
| Migrate.Table.Migrate | migrate.js:7-63 | the loop leaves the table as the row-by-row specification `Run` says |

## Left out

- Express routing, CORS, body parsing and static files are left out, and so are the `/admin` page and `app.listen`. A route is a method from a request to a `Response`.
- File I/O is left out: `ensureDataFile`, `ensureAdminFile`, and reading, writing, copying and unlinking files. The data file is the `submissions` field. The admin file is the parsed value, or `None` when it cannot be read or parsed; a missing one is written with the defaults before it is read.
- A data file that cannot be read or parsed, or that is not an array, reads as an empty list. The model starts from the list already loaded.
- Elements of the stored array that are not objects (a hand-edited data file) are not modelled; a `Submission` is an object's own properties.
- Server.Server.CreateBackup: the contents of each backup copy are not modelled, only the directory listing of names.
- Backups.BackupNameOrder: the order of names is proved for four-digit years only; other years do not get the `YYYY` shape.
- Backups: names follow local wall-clock time, and the model orders backups by that alone. After a daylight-saving fall-back or a change of the host's time zone, a backup taken later can get an equal name, and the copy then overwrites the earlier backup, or a smaller name, and pruning then deletes it before older backups. Server.NewestBackupSurvives is stated in local date-times for this reason.
- Date parsing (`new Date(raw).getTime()`) is a parameter `parse`; NaN is `None`. The clock is a parameter too: the ISO string and the local date-time of one instant. The two `new Date()` reads of one request are taken as the same instant.
- Submissions.Timestamp: `new Date(raw)` throws for an object with its own `toString` key, and the listing would then fail; this throw is not modelled. Records stored by `POST /submit` always carry a string `submittedAt`, so only a hand-edited data file can reach it.
- `uuidv4()` is a parameter; its freshness is an assumption of Submissions.AppendKeepsIdsUnique and Server.Server.Submit, not a fact the model derives.
- Server.Server: its routes admit requests by the intended check Auth.Authorized, not the as-written one; see Findings.
- Server.Server.Submit: stores the intended Submissions.FreshRecord, not the as-written Submissions.NewRecord; see Findings.
- JavaScript numbers are modelled as integers. Floating point, NaN and `-0` are not modelled, so numeric cells and `===` on fractions are not covered.
- Text.DecimalString: always writes plain digits; `String(n)` switches to exponent form for magnitudes from 1e21 on, so a CSV cell of such a number is not modelled.
- `Array.prototype.sort` compares UTF-16 code units; the model compares code points, which agree except when characters outside the Basic Multilingual Plane are involved.
- Sorting uses one insertion sort, proved stable (Sorting.SortStable); a stable engine sort, as ECMAScript 2019 requires, gives the same order.
- Console logging and `process.stdout.write` are left out.
- Migrate: the one-second wait before the loop (the table-creation race) is left out.
- Migrate: an id that is neither text, `null` nor absent (a number, a boolean, an object) is skipped by the model. SQLite would coerce it, and that conversion is not part of this model.
- Migrate.RerunAddsNoKeyedRows: holds for text ids only. SQLite's `id = NULL` never matches, and a `TEXT PRIMARY KEY` accepts NULL, so rows without an id are repeated on each run (Migrate.RerunRepeatsKeylessRows).
- Migrate: a failing database call is an oracle `fails(i)` per element. SQLite's own constraint and type behaviour is not modelled, and neither is the binding of an object value, which falls under `fails`.
- database.js, with its connection, table creation and course seeding, is not part of this model; neither is public/script.js, the browser form.

## Findings

| source | as written | input that shows it | evidently intended | confidence | as-written member | corrected member |
|---|---|---|---|---|---|---|
| server.js:137 | `requireAdmin` tests `sessions[token]` on a plain object, so inherited names such as `constructor` or `toString` read as truthy sessions | `Authorization: Bearer constructor` with no one logged in | admit only tokens issued by login and not revoked | high; not executed | Auth.PrototypeNameBypass | Auth.IssuedTokenAuthorizes |
| server.js:226-227 | the payload is spread after `id: uuidv4()`, so a payload `id` replaces the generated one | a payload with `id` equal to a stored record's id: both records carry it, and after the permanent delete of the first the id is still found | every record has the generated id, so ids stay unique | medium; not executed | Submissions.PayloadIdDuplicates | Submissions.AppendKeepsIdsUnique |
| server.js:225-231 | the payload may set `isArchived`, which `isTrashed` reads as the trashed flag | a payload with `isArchived: true`: stored trashed with a null `trashedAt`, and absent from the default listing at once | a new submission always starts live | medium; not executed | Submissions.PayloadArchivedHidden | Submissions.TransitionsConsistent |
