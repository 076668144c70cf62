# KPI evaluation backend — a Dafny model

This project models the core of the guard-evaluation backend: an Express
service on Drizzle/PostgreSQL where security-guard evaluations are recorded
against clients and can be edited for 24 hours after creation. It covers:

- the evaluation lifecycle (`evaluationController.ts`): create with a 24-hour
  edit window, read, partial update while the window is open, delete at any
  time, and the filtered, newest-first listing;
- the guard registry (`guardController.ts`), with its unique guard code;
- the login decision (`authController.ts`): identifier lookup by email or
  userid, ignoring case, then password check and token issue, plus `getMe`;
- the bearer-token middleware (`middleware/auth.ts`);
- the SQL-dump import helpers of `scripts/migrateFromFile.ts`: `extractValues`
  (regular-expression match plus row split), the `parseRow` tokenizer, and the
  rules that map a dump field to a role and to an edit deadline;
- the three tables of `db/schema.ts` as records, with their defaults and
  unique constraints.

Layout, one module per file:

| file | module | contents |
|---|---|---|
| `http.dfy` | `Http` | `Option`, JavaScript truthiness of an optional string (`Present`), status codes, the `{success, data}` / `{success, message}` response |
| `schema.dfy` | `Schema` | `User`, `Guard`, `Evaluation` records, column defaults, unique constraints |
| `recency.dfy` | `Recency` | `ORDER BY created_at DESC` as a selection loop over the keys of a map |
| `text.dfy` | `Text` | `trim`, ASCII `LOWER`, `split` on one character with its inverse `Join`, and the strip of one character at each end |
| `evaluations.dfy` | `Evaluations` | transitions over the table, request traces, and the `EvaluationStore` class |
| `guards.dfy` | `Guards` | the `GuardStore` class |
| `login.dfy` | `Login` | `login` and `getMe` |
| `middleware.dfy` | `Middleware` | `authenticate` on an `AuthRequest` object |
| `row_parser.dfy` | `RowParser` | `parseRow` as a loop, specified by a character-by-character scanner |
| `dump_values.dfy` | `DumpValues` | `extractValues`, the role rule and the deadline rule |

Handlers that change the database are methods of a class whose fields are the
table: `rows`, a map from id to record, and `nextId`, the next value of the
serial sequence. The sequence is not tied to the ids in the table, because the
import script inserts rows with explicit ids.

- The evaluation handlers (`EvaluationStore`) are each specified by a pure
  transition function over a `Table` value. The lifecycle lemmas are proved
  about those functions, and `Replay` strings them together, so the edit lock
  can be followed across any sequence of requests.
- The guard handlers (`GuardStore`) state their new state directly, in terms
  of the fields before the call.

The clock is a parameter, counted in milliseconds.

Two points of the lock test (`evaluationController.ts:83`) decide the model:

- The test is `editableUntil < now`, so an update at exactly the deadline is
  accepted (`Evaluations.UpdateRefusedIffLocked`).
- A null `editableUntil` is never locked. The import script writes null for a
  `NULL` dump field (`DumpValues.NullDeadlineNeverLocks`).

## Model

| member | source | states |
|---|---|---|
| Evaluations.NewEvaluation | src/controllers/evaluationController.ts:52-64 | the inserted row carries the supplied guard_id, client_id, kpi_scores, total_score, remarks and evaluated_by; absent or empty values become `{}`, "0", null and null; created and updated at `now`, deadline 24 h later |
| Evaluations.CreateStep | src/controllers/evaluationController.ts:45-70 | the sequence advances exactly when both required fields are present, even when the insert then fails; rows change only by inserting the new row under that sequence value, which was free |
| Evaluations.EvaluationStore.Create | src/controllers/evaluationController.ts:45-70 | the new table and the response are those of `CreateStep`; the table stays well formed |
| Evaluations.CreateOutcome | src/controllers/evaluationController.ts:45-70 | 400 and no change when guard_id or client_id is missing or empty; 500 when the sequence value is already an id, with only the sequence advanced; otherwise 201 and one new row under the sequence value holding the supplied values, the defaults for absent ones, updatedAt = createdAt = now and the deadline 24 h later; with the sequence past every id, only the 400 can happen |
| Evaluations.Lookup | src/controllers/evaluationController.ts:35-39 | success with the row exactly when the id is present, otherwise 404 "Evaluation not found" |
| Evaluations.EvaluationStore.GetById | src/controllers/evaluationController.ts:32-43 | success exactly when the id is in the table, with that row; otherwise 404 "Evaluation not found" |
| Evaluations.MissingIdIsNotFound | src/controllers/evaluationController.ts:77-80 | read, update and delete of an absent id answer 404 and change nothing |
| Evaluations.Locked | src/controllers/evaluationController.ts:83 | a row without a deadline is never locked, a row is still open at its very deadline, and a locked row's deadline is before now |
| Evaluations.Updated | src/controllers/evaluationController.ts:87-93 | the update keeps id, guard, client, deadline, evaluator and creation time, sets updatedAt to now, and with an empty body changes nothing else |
| Evaluations.UpdateStep | src/controllers/evaluationController.ts:72-101 | never adds or removes a row nor moves the sequence; a refusal changes nothing; a success means the row existed and was not locked, and replaces only that row |
| Evaluations.EvaluationStore.Update | src/controllers/evaluationController.ts:72-101 | the new table and the response are those of `UpdateStep` |
| Evaluations.UpdateRefusedIffLocked | src/controllers/evaluationController.ts:82-85 | on an existing row: 403 exactly when the deadline exists and is strictly before now, and a refusal changes nothing; at the deadline, or with no deadline, the update succeeds |
| Evaluations.UpdateTouchesOnlyScoredFields | src/controllers/evaluationController.ts:87-95 | a successful update changes only kpi_scores, total_score, remarks and updatedAt of that one row; an absent field keeps its value; a null total_score is skipped; ids, guard, client, deadline, evaluator and creation time stay |
| Evaluations.DeleteStep | src/controllers/evaluationController.ts:103-114 | success exactly when the id is present; afterwards the keys are the old keys without that id, every other row is unchanged, and the sequence stays |
| Evaluations.EvaluationStore.Delete | src/controllers/evaluationController.ts:103-114 | the new table and the response are those of `DeleteStep` |
| Evaluations.DeleteIgnoresWindow | src/controllers/evaluationController.ts:103-114 | a locked row is still deleted: exactly that row goes and 200 "Evaluation deleted successfully" is answered |
| Evaluations.LockIsMonotonic | src/controllers/evaluationController.ts:83 | a row that is locked at some time is locked at every later time |
| Evaluations.HandleKeepsDeadline | src/controllers/evaluationController.ts:87-93 | no request rewrites the deadline of a row that survives it |
| Evaluations.DeadlineNeverRewritten | src/controllers/evaluationController.ts:52-63 | over any sequence of requests, a surviving row whose id the sequence has passed keeps its deadline, and the table stays well formed |
| Evaluations.StaysGone | src/controllers/evaluationController.ts:106 | an id that the sequence has passed and that is absent never reappears under any sequence of requests |
| Evaluations.LockNeverReopens | src/controllers/evaluationController.ts:82-85 | once an update of an id the sequence has passed is refused for expiry, every later update of that id, after any requests, is refused and changes nothing |
| Evaluations.WindowFromCreationKept | src/controllers/evaluationController.ts:52-53 | "deadline = creation time + 24 h" holds for every row after any sequence of requests when it held before |
| Evaluations.SequenceAheadKept | src/db/schema.ts:25 | once the serial sequence is past every id, it stays so after any sequence of requests |
| Evaluations.ImportedIdCollides | src/scripts/migrateFromFile.ts:126-136 | after importing a row with id 1 into a table whose sequence was never used, the first create fails with 500 and only moves the sequence, and the next one succeeds |
| Evaluations.ImportedIdReissued | src/scripts/migrateFromFile.ts:126-136 | a locked imported row whose id the sequence has not reached can be deleted, and its id is then given to a new, editable row |
| Evaluations.ResyncSequence | src/scripts/migrateFromFile.ts:111-150 | the table an import leaves when it ends by moving the sequence past the largest id: same rows, sequence not moved back, and past every id |
| Evaluations.ResyncedCreatesSucceed | src/controllers/evaluationController.ts:56-66 | after such an import, every create with both required fields succeeds, whatever requests came in between |
| Evaluations.Matches | src/controllers/evaluationController.ts:13-19 | no filter given matches every row; a given filter only matches rows with that guard_id or client_id |
| Evaluations.Holds | src/controllers/evaluationController.ts:13-18 | a guard_id condition holds exactly for rows with that guard_id, a client_id condition exactly for rows with that client_id |
| Evaluations.AllHold | src/controllers/evaluationController.ts:22-23 | `and(...conditions)`: the row meets every condition in the list; an empty list filters nothing |
| Evaluations.EvaluationStore.List | src/controllers/evaluationController.ts:6-30 | the result holds exactly the rows that match every given filter (an empty filter filters nothing), each once, newest first |
| Evaluations.ConditionsMeanMatches | src/controllers/evaluationController.ts:11-23 | the pushed conditions all hold exactly when the row matches every given filter; an absent or empty filter adds no condition |
| Evaluations.ListedRows | src/controllers/evaluationController.ts:25 | the rows listed in a newest-first enumeration of the matching ids are the matching rows, each once, newest first |
| Recency.SortNewestFirst | src/controllers/evaluationController.ts:25 | the result lists each selected key exactly once, in non-increasing order of creation time |
| Guards.GuardStore.Create | src/controllers/guardController.ts:45-68 | 400 when name or guard_id is missing or empty; 409 and no change when the code is taken; 500 when the sequence value is already an id, with only the sequence advanced; otherwise 201 and one new row with that name and code under the sequence value; codes stay unique |
| Guards.CodeTaken | src/controllers/guardController.ts:54-55 | the code is taken exactly when it is among the guard codes of the table; an empty table takes none |
| Guards.DuplicateCodeScenario | src/controllers/guardController.ts:54-57 | on a fresh table (sequence at 1) the first create of a code answers 201 under id 1, and a second create of the same code answers 409 "A guard with this ID already exists" |
| Guards.InsertKeepsCodesUnique | src/db/schema.ts:18 | inserting a guard whose code is not taken keeps guard codes unique |
| Guards.RemoveKeepsCodesUnique | src/db/schema.ts:18 | removing a guard keeps guard codes unique |
| Guards.Format | src/controllers/guardController.ts:9-15 | the response shape carries id, name, guard_id, created_at and updated_at with the row's values |
| Guards.GuardStore.GetById | src/controllers/guardController.ts:22-43 | 404 "Guard not found" for an absent id; otherwise the row in its `{id, name, guard_id, created_at, updated_at}` form |
| Guards.GuardStore.Delete | src/controllers/guardController.ts:70-81 | 404 and no change for an absent id; otherwise exactly that row is removed |
| Guards.GuardStore.List | src/controllers/guardController.ts:6-20 | every guard once, in its formatted form, newest first |
| Login.FindUser | src/controllers/authController.ts:19-29 | the first user in scan order whose email or userid equals the identifier ignoring case; none exactly when no user matches |
| Login.Identifies | src/controllers/authController.ts:22-25 | an email equal to the identifier up to case identifies the user; without a userid only the email can; a match has the identifier's length |
| Login.Login | src/controllers/authController.ts:10-57 | every refusal is 400 "Email/UserID and password are required" or 401 "Invalid credentials"; a success carries both fields, and the token and summary of the first matching user, whose password compares true |
| Login.MissingFieldsRefusedBeforeLookup | src/controllers/authController.ts:13-15 | a missing or empty identifier or password gets 400, whatever the users table holds |
| Login.UnknownAndWrongPasswordLookAlike | src/controllers/authController.ts:31-38 | an unknown identifier and a wrong password get the same 401 "Invalid credentials" |
| Login.LoginSucceedsIffPasswordMatches | src/controllers/authController.ts:35-57 | success exactly when the first matching user's password matches; the token binds that user's id, email and role for 24 h, and the summary has id, name, email and role |
| Login.FindUserIgnoresCase | src/controllers/authController.ts:23-24 | identifiers equal up to case find the same user |
| Login.IdentifierCaseInsensitive | src/controllers/authController.ts:18-24 | identifiers equal up to case get the same login answer |
| Login.CaseVariantIsShadowed | src/db/schema.ts:9 | the case-sensitive unique constraint admits two emails that differ only in case, and then the lookup reaches only the first |
| Login.GetMe | src/controllers/authController.ts:63-68 | 200 with exactly the claims stored on the request |
| Middleware.BearerToken | src/middleware/auth.ts:11-12 | no header gives no token; a token is never empty and never contains a space |
| Middleware.TokenIsSecondWord | src/middleware/auth.ts:11-12 | the token is the second space-separated word of the header, whatever the first word and the words after it |
| Middleware.NoSpaceNoToken | src/middleware/auth.ts:12-16 | a header without a space yields no token |
| Middleware.TokenAfterFirstSpace | src/middleware/auth.ts:12 | there is a token exactly when the first space is followed by a non-space, and the token is the word that starts there |
| Middleware.Decide | src/middleware/auth.ts:14-23 | a rejection is 401 "Unauthorized (No token provided)" or 403 "Invalid or expired token"; a pass carries exactly what `verify` decoded from the header's token |
| Middleware.DecideOutcomes | src/middleware/auth.ts:14-24 | 401 exactly when there is no token, 403 exactly when the token does not verify, otherwise the decoded claims |
| Middleware.Authenticate | src/middleware/auth.ts:10-25 | on success `req.user` is set and `next` is called once; on refusal 401 or 403 is sent and neither happens |
| Middleware.AuthenticatedMe | src/middleware/auth.ts:18-21 | the `/me` handler runs exactly when the token verifies, and answers with the decoded claims |
| RowParser.Step | src/scripts/migrateFromFile.ts:40-53 | one character never rewrites a closed field and closes at most one; after a backslash the character is appended as it is and the escape ends |
| RowParser.Feed | src/scripts/migrateFromFile.ts:39-54 | scanning text keeps the fields closed before and closes at most one per character |
| RowParser.Fields | src/scripts/migrateFromFile.ts:55-56 | a row yields at least one field and at most one more than its length |
| RowParser.ParseRow | src/scripts/migrateFromFile.ts:33-57 | the loop computes `Fields(row)`, the scanner's closed fields and its last field |
| RowParser.FieldCount | src/scripts/migrateFromFile.ts:48-55 | one field more than unquoted, unescaped commas; the empty row gives one empty field |
| RowParser.EscapeTakesNextLiterally | src/scripts/migrateFromFile.ts:41-45 | a backslash makes the next character literal and is dropped |
| RowParser.TrailingBackslashDropped | src/scripts/migrateFromFile.ts:44-45 | a final lone backslash contributes nothing |
| RowParser.QuotedRun | src/scripts/migrateFromFile.ts:46-48 | a quoted run without quotes or backslashes adds its text, commas included, and drops its quotes |
| RowParser.PlainRowSplitsAtCommas | src/scripts/migrateFromFile.ts:48-55 | without quotes or backslashes the row is `split(',')` with each piece trimmed and unquoted |
| RowParser.NoQuoteUnlessEscaped | src/scripts/migrateFromFile.ts:41-53 | when no quote follows a backslash, neither the current field nor any closed field holds a quote |
| RowParser.QuotesNeverEmitted | src/scripts/migrateFromFile.ts:46-47 | quotes reach a field only through a backslash: a row in which no quote is escaped yields fields without quote characters |
| RowParser.FeedConcat | src/scripts/migrateFromFile.ts:39-54 | scanning two pieces one after the other is scanning their concatenation |
| RowParser.Clean | src/scripts/migrateFromFile.ts:49 | a field is the trimmed text with one quote stripped at each end; it is never longer than its text and adds no character; text already trimmed and unquoted is kept as it is |
| Text.Trim | src/scripts/migrateFromFile.ts:22 | the result is the slice of the input left after removing whitespace from both ends: only whitespace before and after it, none at its ends |
| Text.IsSpace | src/scripts/migrateFromFile.ts:22 | space, tab, newline and carriage return are whitespace for `trim` and `\s`; no visible ASCII character is |
| Text.LowerChar | src/controllers/authController.ts:23-24 | the result is never an upper-case ASCII letter; an upper-case letter becomes its lower-case letter, every other character is kept |
| Text.Lower | src/controllers/authController.ts:23-24 | same length, lower-cased character by character, no upper-case ASCII letter left; text without one is kept |
| Text.Split | src/middleware/auth.ts:12 | at least one piece, no piece contains the separator, and joining the pieces with it gives the input back |
| Text.StripEnds | src/scripts/migrateFromFile.ts:28-55 | removes one opening character at the start and one closing character at the end, each when present (a lone character that is both, once), leaves other text alone, adds no character; line 28 uses it with `(` and `)`, lines 49 and 55 with quotes |
| Text.SplitJoin | src/middleware/auth.ts:12 | splitting the join of separator-free parts gives the parts back |
| DumpValues.MatchAt | src/scripts/migrateFromFile.ts:16 | a match starting at a position begins with the statement's prefix (ignoring case), and its group holds no `;` and starts with no whitespace |
| DumpValues.IndexOf | src/scripts/migrateFromFile.ts:16 | `[^)]*\)`: the first position at or after the start that holds the character, none exactly when no later position holds it |
| DumpValues.SkipSpaces | src/scripts/migrateFromFile.ts:16 | `\s*`: skips only whitespace and stops at the end or at the first non-whitespace character |
| DumpValues.FirstMatch | src/scripts/migrateFromFile.ts:17 | no match exactly when no position starts one; a found group holds no `;` |
| DumpValues.FirstMatchIsLeftmost | src/scripts/migrateFromFile.ts:17 | the match found is the one at the leftmost position where a match starts |
| DumpValues.SplitRows | src/scripts/migrateFromFile.ts:28 | the split gives at least one piece, and every piece consists of characters of the input |
| DumpValues.SeparatorAt | src/scripts/migrateFromFile.ts:28 | a separator `),` + whitespace + `(` found at the start has that shape, and whenever the text starts with one, it is found with its unique length |
| DumpValues.ExtractValues | src/scripts/migrateFromFile.ts:15-30 | no rows exactly when no INSERT statement for the table matches; no row holds a `;` |
| DumpValues.StatementRoundTrip | src/scripts/migrateFromFile.ts:15-30 | for a statement written as `INSERT INTO \`t\` (cols) VALUES (r1),(r2),...;` the tuples come back out |
| DumpValues.RowsRoundTrip | src/scripts/migrateFromFile.ts:28 | splitting and unwrapping a written VALUES list gives back the tuples |
| DumpValues.SplitIgnoresQuotes | src/scripts/migrateFromFile.ts:20-28 | a quoted value that contains `),(` is cut in two |
| DumpValues.RoleOf | src/scripts/migrateFromFile.ts:72 | the role is admin exactly for the field `admin`; anything else, a missing field included, gives user |
| DumpValues.RoleRule | src/scripts/migrateFromFile.ts:72 | the comparison is case-sensitive: "Admin" and "ADMIN" give user, as do "user", "NULL" and a missing field |
| DumpValues.DeadlineOf | src/scripts/migrateFromFile.ts:132 | no deadline exactly for a missing, empty or `NULL` field; otherwise the parsed date of the field |
| DumpValues.NullDeadlineNeverLocks | src/scripts/migrateFromFile.ts:132 | a NULL, empty or missing deadline field becomes no deadline, and such a row is never locked and can always be updated |
| DumpValues.PlainRowRole | src/scripts/migrateFromFile.ts:63-72 | on a row without quotes or backslashes, the role read from `parseRow(row)[5]` is admin exactly when the sixth comma piece, trimmed and unquoted, is `admin` |
| DumpValues.PlainRowDeadline | src/scripts/migrateFromFile.ts:114-132 | on a row without quotes or backslashes, the deadline read from `parseRow(row)[5]` is none exactly when there are fewer than six comma pieces or the sixth cleans to `NULL` or to nothing |

## Findings

| source | as written | input that shows it | evidently intended | confidence | as-written member | corrected member |
|---|---|---|---|---|---|---|
| src/scripts/migrateFromFile.ts:126-136 | rows are inserted with explicit ids into `serial` columns, and the sequence is never moved past them (the same holds at lines 66-67 and 95-96) | import an evaluation with id 1 into a fresh database, then `POST /evaluations` with guard_id and client_id | creates after an import get new ids; the import ends by moving each sequence past the largest imported id | high for the 500; not executed | Evaluations.ImportedIdCollides | Evaluations.ResyncSequence |

The same collision hits `createGuard` after guards are imported; `Guards.GuardStore.Create` states its 500 path. `Evaluations.ImportedIdReissued` shows the second effect: an imported id the sequence has not reached can be deleted and issued again, so the deadline and lock results above are stated for ids the sequence has passed. `Evaluations.ResyncedCreatesSucceed` proves the intended property about the corrected table.

## Left out

- Database access, `console` output, process exit and most 500 error paths
  are not modelled. The database is the class fields; a failing query is not
  represented. The one 500 that is modelled is the insert under a sequence
  value that is already an id, in both create handlers; its message stands
  for the database's error text.
- Concurrency between requests is not modelled. Requests are handled one
  after another (`Replay`).
- `parseInt` of the route id is not modelled: ids are natural numbers. A
  non-numeric id is not represented.
- The `editableUntil` deadline is creation time plus exactly 24 hours in
  milliseconds. `setHours(getHours() + 24)` follows local time across a
  daylight-saving change; that case is not modelled.
- `total_score` is kept as its string form. The `numeric(5, 2)` rounding and
  overflow of the column, and `toString` of a number, are not modelled.
- Request-body fields are modelled as strings or absent. Non-string JSON
  values, whose truthiness differs, are not modelled.
- `kpi_scores || {}` treats only an absent value as falsy. A JSON `false`,
  `0` or `""` there is not modelled.
- `bcrypt.compare`, `jwt.sign` and `jwt.verify` (signature, secret, expiry)
  are opaque function parameters. The JWT secret and its fallback value are
  not modelled.
- Evaluations.NewEvaluation: the database fills `created_at` and `updated_at`
  with its own insert time (`defaultNow()`), while the handler computes
  `editableUntil` from the application's clock just before the insert. The
  model has one clock: the insert time is taken to be the handler's `now`.
  `Evaluations.CreateOutcome`, `Evaluations.WindowFromCreationKept` and
  `Guards.GuardStore.Create` rely on this; in the running system
  `editableUntil` is 24 hours after a moment slightly before `created_at`.
- `LOWER` and the `i` regular-expression flag are modelled for ASCII letters
  only. Unicode case mapping is not modelled.
- Login.FindUser: the lookup has `.limit(1)` and no `ORDER BY`, so the
  database may return any matching user. The `seq` of users stands for the
  order of one scan, and is assumed to be the same in the calls that
  `Login.IdentifierCaseInsensitive` and `Login.CaseVariantIsShadowed` compare.
- Rows with equal creation times may be listed in any order. The database
  fixes no order for them, and neither does the model.
- The role column is modelled as never null. An explicit `NULL` role is not
  represented. Its default, `admin`, is not modelled: no modelled insert
  leaves the role out.
- The `created_at` and `updated_at` columns allow NULL, but every insert
  fills them. They are plain timestamps in the model; an explicit NULL written
  to them by other tools is not represented.
- The varchar length limits (`userid` and `guard_id` 50, `client_id` 100,
  `name`, `email`, `password` and `evaluated_by` 255) are not modelled: a
  longer value, which the database refuses with a 500, is stored as given.
- In `migrateFromFile.ts`, the insert loops (`onConflictDoUpdate` per row),
  `JSON.parse` of `kpi_scores`, and `new Date` of the timestamp fields are
  left out. `new Date` is a function parameter in `DumpValues.DeadlineOf`.
- The table name in `extractValues` is used inside a regular expression. Table
  names with regular-expression metacharacters are not modelled; the script
  uses `users`, `guards` and `evaluations`.
- The route files, `index.ts`, `migrateData.ts`, `initDB.ts` and `checkDB.ts`
  are not part of this model.
- Guards.GuardStore.Create: the duplicate check and the insert are two
  separate queries in the source. A race between them ends in the unique
  constraint's error (a 500), which is not modelled.
