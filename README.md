# Form submissions with smallest-free-id allocation

A model of the public submission endpoint of a small contact-form collector
(`pages/api/submit.js`). A POST carries a name, an optional telephone,
gender, free text and e-mail, and a CAPTCHA token. The endpoint checks the
request in a fixed order (method, name, e-mail format, CAPTCHA provider
configured, token present, provider known and its secret set, provider
verdict), then, inside one transaction that holds an exclusive lock on the
`submissions` table, reads every id in ascending order, gives the new row the
smallest positive integer that is not yet an id, inserts it and commits. Any
failing statement rolls the transaction back. The answer never contains the
allocated id.

Modules:

- `Wrappers` — `Option`, used for absent JSON fields and SQL NULL.
- `Email` — the e-mail check `isValidEmail`: the JavaScript `\s` class written
  out, an executable check, and a proof that it accepts exactly the strings
  the regular expression `/^[^@\s]+@[^@\s]+\.[^@\s]+$/` matches.
- `Allocator` — the "smallest missing positive id" specification
  (`LeastMissing`) and the scan `computeNextIdFromRows` as a method with a
  loop (`ComputeNextId`), proved against it; reuse of deleted ids and
  gap-free serial allocation.
- `Submissions` — the table as an object whose `rows` field holds the rows
  in insertion order (their physical order is never observed, since the
  SELECT orders by id), the `SELECT id ... ORDER BY id ASC` as a sort, the INSERT
  with its PRIMARY KEY and `integer`-range failures, the locked
  allocate-and-insert transaction with rollback, and the admin route's
  `DELETE ... WHERE id = $1`.
- `Handler` — the request checks as a pure function `Gate` and the whole
  endpoint as the method `Handle`.
- `Scenarios` — callers that rely only on the contracts: `n` submissions in a
  row get ids 1..n, and a deleted id is handed out again.

The id reuse the allocator promises shows only once rows disappear, which
happens through the admin route's `DELETE FROM ${table} WHERE id = $1`
(line 29 of `[table].js` under the `pages 2/api/admin/table` directory).
`Submissions.SubmissionsTable.Delete` models that statement: the rows become
the old rows without the one carrying the id (`Submissions.RemoveId`), and
the id set loses exactly that id (`Submissions.RemoveIdIds`), keeping the
table invariant.

The sibling variant `pages 2/api/submit.js` skips the CAPTCHA when no secret
is set; this endpoint answers 500 when no provider is configured and 400 when
the token is missing, and `Gate` follows it. `ComputeNextId` is proved for any
non-decreasing id list, which is a weaker requirement than ascending,
distinct, positive ids.

## Model

| member | source | states |
|---|---|---|
| `Allocator.LeastMissingFrom` | pages/api/submit.js:13-19 | counting up from `k`, the result is the first integer not among the ids, and every integer passed on the way is an id |
| `Allocator.LeastMissing` | pages/api/submit.js:10-20 | the result is the smallest positive integer that is not an id, and it is the only value with that property |
| `Allocator.ComputeNextId` | pages/api/submit.js:11-20 | the scan returns a value in 1..n+1 for n rows, and for a non-decreasing id list exactly the smallest missing positive id (including 1 for no rows and the early return at the first gap) |
| `Allocator.LeastMissingBound` | pages/api/submit.js:12-19 | the allocated id is at least 1 and at most the number of ids plus one |
| `Allocator.Examples` | pages/api/submit.js:10-20 | no ids gives 1; ids 1,2,3 give 4; ids 1,3,4 give 2; ids 2,3,4 give 1 |
| `Allocator.ConsecutiveIds` | pages/api/submit.js:13-19 | when the ids are exactly 1..n the next id is n + 1 |
| `Allocator.DeleteThenAllocate` | pages/api/submit.js:91-92 | after removing a positive id `k`, the next id is `k` if `k` was below the old next id, and the old next id otherwise |
| `Allocator.AllocationAdvances` | pages/api/submit.js:91-96 | once the allocated id is inserted, the next allocation is strictly larger |
| `Allocator.AllocateManyFromEmpty` | pages/api/submit.js:84-99 | `n` serialised allocations starting from no ids leave exactly the ids 1..n: no id twice, no gap |
| `Email.MatchesPattern` | pages/api/submit.js:7 | the regular expression read as split points: a matching string has at least five characters, an '@' and a '.' |
| `Email.IsValidEmail` | pages/api/submit.js:5-8 | the empty string is refused |
| `Email.IsValidEmailMatchesPattern` | pages/api/submit.js:5-8 | the check accepts a string exactly when the regular expression matches it (both directions) |
| `Email.ValidMatchesPattern` | pages/api/submit.js:7 | every accepted string has split points '@' and '.' with three non-empty runs of non-'@', non-space characters |
| `Email.PatternMatchesValid` | pages/api/submit.js:7 | every string the regular expression matches is accepted |
| `Email.ValidEmailShape` | pages/api/submit.js:5-8 | accepted exactly when there is no whitespace, exactly one '@' with something before it, and a '.' after it that is neither right after the '@' nor last |
| `Submissions.SortAscending` | pages/api/submit.js:91 | the `ORDER BY id ASC` result is non-decreasing and a permutation of the ids |
| `Submissions.SortKeepsElements` | pages/api/submit.js:91 | sorting keeps the set of ids |
| `Submissions.IdsOfAppend` | pages/api/submit.js:94-97 | inserting a row adds its id to the id list and to the id set |
| `Submissions.SubmissionsTable.constructor` | pages/api/submit.js:72-82 | a newly created table has no rows and satisfies the table invariant |
| `Submissions.SubmissionsTable.InsertRow` | pages/api/submit.js:94-97 | the INSERT fails with an out-of-range error for an id outside the `integer` column, with a duplicate-key error for an id in use, and otherwise appends exactly the new row; a failed INSERT leaves the rows unchanged |
| `Submissions.SubmissionsTable.NextId` | pages/api/submit.js:91-92 | the id read and scanned under the lock is the smallest positive integer not used by any row, and at most the row count plus one |
| `Submissions.SubmissionsTable.AllocateAndInsert` | pages/api/submit.js:84-105 | on commit exactly one row is appended, under the smallest free positive id, which was not in use, and the id set grows by that id; on rollback the rows are as before; the transaction commits exactly when no statement fails and the id fits the column; the rollback reason names the failing statement or the out-of-range id |
| `Handler.Fields` | pages/api/submit.js:44 | a present body is read as is; a missing body reads as one in which no field is truthy |
| `Handler.Provider` | pages/api/submit.js:50 | the provider is truthy exactly when one of the two variables is, and the public one is used when it is truthy and `TWO_FA_PROVIDER` otherwise |
| `Handler.Secret` | pages/api/submit.js:55-66 | reCAPTCHA uses its secret and Turnstile its own; an unknown provider has no secret |
| `Handler.RowData` | pages/api/submit.js:94-96 | the row holds the name as given, and each other column holds its field's value when that field is truthy and NULL otherwise |
| `Handler.Gate` | pages/api/submit.js:39-67 | a request is admitted exactly when it is a POST with a name, a valid e-mail if it has one, a token, a known provider with its secret and a positive verdict; the admitted row is the body's row |
| `Handler.OrNull` | pages/api/submit.js:96 | a falsy field (absent or empty) is stored as NULL, a truthy one unchanged |
| `Handler.GateAdmitsAcceptable` | pages/api/submit.js:39-67 | a request is admitted exactly when it is a POST with a name, a well-formed e-mail if any, a token, a known provider with its secret and a positive verdict; the admitted row holds the name and the other fields with falsy ones as NULL |
| `Handler.GatePrecedence` | pages/api/submit.js:39-67 | each refusal reason is given exactly when its check fails and every earlier check passed, in the handler's order |
| `Handler.StatusOf` | pages/api/submit.js:39-117 | 405 only for a wrong method; 400 for a missing name, a bad e-mail or a missing token; 403 for a failed verification; 500 for configuration and database errors |
| `Handler.Handle` | pages/api/submit.js:38-118 | a refused request gets its reason's status and error and leaves the table alone; the answer is 200 exactly when the request is admitted, setup and every statement succeed and the id fits; a 200 answer is `{ok: true}` and appends the admitted row under the smallest free id; any other answer leaves the rows unchanged, and an admitted request that fails gets 500 "Database error" |
| `Scenarios.SubmitOnFullPrefix` | pages/api/submit.js:84-99 | on a table holding ids 1..i, a successful submission gets id i + 1 and the table then holds 1..i+1 |
| `Scenarios.SerialSubmissions` | pages/api/submit.js:84-99 | `n` submissions one after another on a new table receive ids 1, 2, ..., n |
| `Scenarios.DeleteAndResubmit` | pages/api/submit.js:84-99 | on a table holding 1..n, deleting id k and submitting again hands out k and restores 1..n |
| `Scenarios.DeleteThenReallocate` | pages/api/submit.js:84-99 | rows 1, 2, 3, then row 2 deleted: the next two submissions get ids 2 and 4 |

## Left out

- Concurrency: the exclusive table lock serialises every allocate-and-insert, so each transaction is one atomic method call; interleavings of other statements with the lock held are not modelled.
- CAPTCHA verification: the remote `siteverify` call of reCAPTCHA or Turnstile is an input (`Verdict`): verified, not verified, or the call threw. A throw reaches the outer handler and answers 500 "Database error", which is what `Unreachable` gives.
- Error texts and details: the two providers' "secret not set" and "failed" messages are one reason each; the `detail` fields and the "database does not exist" message for error code 3D000 are not modelled (every setup or transaction failure is `DatabaseError`, status 500 either way).
- Setup: obtaining the pool, `CREATE TABLE IF NOT EXISTS` and taking a client are one boolean input `setupFails`; the table is taken to exist, and a failure there answers 500.
- The `created_at` column: filled by the database clock, not modelled.
- The `console.error` logging of a failure is not modelled; nothing else depends on it.
- The `Allow: POST` header on a 405 answer is not modelled.
- ROLLBACK itself failing, and `client.release()`, are not modelled.
- JSON field values that are not strings (numbers, objects) are not modelled: every field is an optional string, and truthiness is "present and non-empty".
- `Submissions.SubmissionsTable.Delete`: the admin route's id is `Number(id)`, a double; the model takes an integer id, and leaves out the route's table-name check, its GET listing and its error answers.
- `Allocator.ComputeNextId`: proved to compute the smallest missing id only for a non-decreasing id list, which is what the `ORDER BY id ASC` query supplies; for unordered input only the bound 1..n+1 is stated.
- The admin browser, the edge worker and its SQL proxy, the client pages, the build scripts and `lib/db.js` are not part of this model.
