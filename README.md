# Student records service: a Dafny model

This project models the core of a small HTTP service that keeps one
PostgreSQL table, `students`. The table has a SERIAL key `id`, six text
columns (`name`, `gender`, `studentId` (UNIQUE), `phone`, `email`,
`address`) and a DATE column, `birthDate`. The model covers two layers.

- The data access layer (`db.js`) works on an in-memory table: a sequence of
  rows plus the next value of the key sequence.
  - `checkDuplicate` looks up studentId, phone, email and name, in that
    order, and stops at the first collision. On update, the row being
    updated never collides with itself.
  - `addStudent` and `updateStudent` run that check unless `force` is set.
    Even with `force`, the UNIQUE constraint on studentId still rejects a
    duplicate.
  - `deleteStudent` reports how many rows it removed.
  - `getStudents` returns one page of rows: an optional case-insensitive
    substring filter, an ORDER BY limited to a whitelist of columns, and
    LIMIT/OFFSET paging with a total count and a page count.
- The request layer (`app.js`) is pure. It maps each failure kind to a
  status and a `code`, answers 404 when no row was affected, fills in
  defaults for the list parameters, and checks the origin allow-list.

Files:

- `model.dfy` (module `Model`): the row, column and failure types, plus the
  row sets that `WHERE id = $1`, `UPDATE … WHERE id` and `DELETE … WHERE id`
  select.
- `text.dfy` (module `Text`): `ILIKE '%k%'` and lexicographic order on text.
- `duplicates.dfy` (module `Duplicates`): the validator, and a reference
  definition of it as an ordered scan.
- `listing.dfy` (module `Listing`): the filter, the ordering and the paging.
- `store.dfy` (module `Store`): each statement written as a function from
  the table before to the table after plus the callback's outcome. The class
  `StudentTable` does the same steps in place, and each of its methods is
  proved equal to the matching function.
- `api.dfy` (module `Api`): the request layer's mappings.
- `routes.dfy` (module `Routes`): the four endpoints wired to the table, and
  what a client sees for each kind of request.

Decisions the model makes about the database:

- The key sequence advances on every INSERT that runs, including one the
  UNIQUE constraint rejects. PostgreSQL does not roll back `nextval`. So a
  key is never handed out twice.
- Quoting decides what a column name means:
  - `filterColumn` is quoted in the WHERE clause, so it must match one of
    the eight column names exactly.
  - An unknown name makes the count query fail. So do `id` and `birthDate`:
    PostgreSQL has no ILIKE operator for an integer or a DATE. The request
    then gets a 500 carrying PostgreSQL's message. `getStudents` has a
    separate branch for `birthDate` that skips lower-casing the keyword;
    that branch only ever builds a query that fails, so the model has no
    filtered page for it.
  - `sortField` is not quoted in the ORDER BY clause, so `studentId` and
    `birthDate` fold to `studentid` and `birthdate`, which are not columns.
    The list query then fails, and `getStudents` dereferences the missing
    result and crashes (db.js:154-156). `Listing.List` and everything that
    lists therefore require `Listing.Answered`: such a sort is asked for only
    when the count query has already failed.
- The store reports PostgreSQL's own messages (unknown column, missing
  operator, UNIQUE violation) as constant strings.
- Text columns sort by character code. Rows with equal sort keys keep their
  table order. PostgreSQL leaves the order of such ties open.
- The code's `!origin` accepts an absent or an empty Origin header, and the
  model follows the code.
- `deleteStudent` dereferences `result` before it calls back. A failing
  delete therefore crashes instead of reaching the 500 branch of `app.js`.
  The store never reports a delete error; `Api.DeleteResponse` still models
  all three branches.

## Model

| member | source | states |
|---|---|---|
| `Model.ParseColumn` | db.js:12-21 | A name denotes a column only if it is that column's declared name, exactly and case-sensitively |
| `Model.ParseColumnName` | db.js:138-139 | Every one of the eight declared column names denotes its own column |
| `Model.TypeDistinguishesKinds` | db.js:46-67 | The `type` strings tell the four validation kinds apart from each other and from `error` |
| `Model.ForceFlag` | db.js:165 | Definition: `force = false`, so an absent `force` means false (also `addStudent`, db.js:78, and app.js:29). `Routes.PostStudent` and `Store.StudentTable.UpdateStudent` apply it |
| `Model.Failure.Type` | db.js:46-67 | Definition: the `type` of each failure, `idErr`, `phoneErr`, `emailErr`, `duplicate`, and `error` for a storage failure (db.js:97). `Model.TypeDistinguishesKinds` proves the strings tell the kinds apart |
| `Model.Failure.Msg` | db.js:46-67 | Definition: the `msg` of each failure, the four fixed texts, or the storage error's own message (db.js:97). `Api.FailureResponseFacts` proves that responses echo it |
| `Model.CountId` | db.js:188 | Definition: the number of rows with the key, which is `rowCount`. `Model.CountIdIsZeroOrOne` proves it is 1 or 0 by presence |
| `Model.WithoutId` | db.js:208 | Definition: the rows of another key, in order, as `DELETE … WHERE id = $1` leaves them. `Model.WithoutIdContents` proves its contents and size |
| `Model.CountIdIsZeroOrOne` | db.js:188 | When keys are distinct, a statement targeting one key affects 1 row if that key exists and 0 otherwise |
| `Model.WithoutIdContents` | db.js:208 | Delete keeps exactly the rows with a different key, and shrinks the table by the number of rows it affected |
| `Model.WithoutIdAbsent` | db.js:208 | Deleting a key that no row has leaves the table as it was |
| `Model.Replace` | db.js:167-171 | The UPDATE statement keeps the number of rows |
| `Model.ReplaceContents` | db.js:167-171 | The row with that key gets all seven new fields; every key and every other row stays as it was; the affected count is unchanged |
| `Text.ContainsIffOccurs` | db.js:130-134 | The substring scan succeeds exactly when the keyword occurs at some position in the value (`ILIKE '%k%'`) |
| `Text.Lower` | db.js:134 | Definition: `toLowerCase()`, on ASCII letters. `Text.ILikeLowerKeyword` proves that lower-casing the keyword does not change a match |
| `Text.ILike` | db.js:128-134 | Definition: `value ILIKE '%keyword%'`, a substring test after lower-casing both sides. `Text.ContainsIffOccurs` ties the scan to occurrence at a position, and `Text.ILikeSelf` gives its corner cases |
| `Text.ILikeLowerKeyword` | db.js:127-135 | Lower-casing the keyword (the non-birthDate branch) does not change which rows match |
| `Text.ILikeSelf` | db.js:130-134 | Every value matches itself, and the empty keyword matches every value |
| `Text.LexLeTotal` | db.js:141 | Any two texts can be compared in the text sort order |
| `Text.LexLeTransitive` | db.js:141 | The text sort order is transitive |
| `Text.LexLeAntisymmetric` | db.js:141 | Two texts that each sort no later than the other are equal |
| `Duplicates.FailureFor` | db.js:46-67 | A collision on a checked column is reported as a validation failure, never as a storage error |
| `Duplicates.FailureForInjective` | db.js:46-67 | Each checked column has its own failure kind |
| `Duplicates.Collides` | db.js:42-66 | Definition: some row holds the value in that column and, when an id is given, has another key (`… = $1 AND (id != $2 OR $2 IS NULL)`). `Duplicates.CollidesIgnoresSelf` proves what the id exclusion means |
| `Duplicates.CheckDuplicate` | db.js:41-75 | The validator never reports a storage error |
| `Duplicates.FirstCollisionIsFirst` | db.js:41-75 | An ordered scan reports no failure iff no column collides, and otherwise the kind of the first colliding column |
| `Duplicates.CheckDuplicateIsOrderedScan` | db.js:41-75 | The nested chain is the ordered scan over studentId, phone, email, name |
| `Duplicates.CheckDuplicateReports` | db.js:41-75 | The validator returns none iff none of the four columns collides; otherwise it returns the kind of the first one in order that does |
| `Duplicates.CreateCheckSeesEveryRow` | db.js:104-112 | With no id (create), a passing check means no row shares studentId, phone, email or name with the new student |
| `Duplicates.CollidesIgnoresSelf` | db.js:42 | With an id given, a lookup behaves as if the row with that id were absent (`id != $2 OR $2 IS NULL`) |
| `Duplicates.CheckDuplicateIgnoresSelf` | db.js:192-199 | The update check compares against all rows except the updated one, and against every one of those |
| `Duplicates.CheckDuplicateIgnoresSelfContents` | db.js:192-199 | Whatever the updated row currently holds, it never causes a collision |
| `Duplicates.AbsentSelfIsCreate` | db.js:42 | An update id that no row has is checked exactly like a create |
| `Listing.ResolveFilterMeaning` | db.js:125-136 | The filter applies only when both options are non-empty. It then selects the rows whose named column contains the keyword, ignoring case. It fails exactly for unknown names, for `id` and for `birthDate` |
| `Listing.ResolveFilter` | db.js:125-136 | Definition: no filter unless both options are non-empty; otherwise PostgreSQL's error for an unknown column, `id` or `birthDate`, or an ILIKE on the named text column with the lower-cased keyword. `Listing.ResolveFilterMeaning` proves what it selects |
| `Listing.Filtered` | db.js:125-136 | Definition: the rows the WHERE clause keeps, in table order. `Listing.FilteredContents` proves they are exactly the matching rows |
| `Listing.FilteredContents` | db.js:125-136 | The filtered rows are exactly the table's rows that match; no filter keeps every row |
| `Listing.SortColumn` | db.js:138-139 | The sort is by the sort field when it is one of the eight whitelisted names, and by `id` otherwise |
| `Listing.Descending` | db.js:140 | Definition: the order is DESC only when `sortOrder` is exactly `desc`, and ASC for anything else. `Listing.SortRowsCorrect` proves the rows come out in that direction |
| `Listing.SortQueryFails` | db.js:141 | Definition: the ORDER BY names `studentId` or `birthDate`, which fold to lower case unquoted and are then not columns, so the list query fails |
| `Listing.Answered` | db.js:149-156 | Definition: the request gets an answer. Either the count query fails first, or the list query runs: its sort names a real column, and its LIMIT and OFFSET fit `bigint`. A list query that fails after a successful count query crashes at db.js:156. `Listing.List` requires it |
| `Listing.PageInRange` | db.js:143-147 | Definition: `pageSize` and the offset `(page-1)*pageSize` that db.js sends as LIMIT and OFFSET are positive, or zero for the offset, and at most 9223372036854775807, the largest `bigint` |
| `Listing.Offset` | db.js:145 | Definition: `offset = (page - 1) * pageSize`, never negative for `page >= 1` and `pageSize >= 1` |
| `Listing.PageOf` | db.js:149-160 | Definition: the page object `{ list, total, totalPages, currentPage }`, with the window of the sorted matches, their count, the page count and the page asked for. `Listing.PageOfFacts` and `Listing.PageOfContents` prove what it holds |
| `Listing.SortRowsCorrect` | db.js:140-141 | The ordered result is a permutation of the rows, ordered by the column in the requested direction |
| `Listing.SortRows` | db.js:140-141 | Definition: `ORDER BY` on one column in one direction, by insertion. `Listing.SortRowsCorrect` proves it is a sorted permutation |
| `Listing.Window` | db.js:143-147 | Definition: `LIMIT size OFFSET offset`. `Listing.WindowBounds` proves which rows a page holds, and how many |
| `Listing.TotalPages` | db.js:152 | Definition: `total === 0 ? 1 : Math.ceil(total / pageSize)` in integer arithmetic. `Listing.TotalPagesBounds` proves it is the ceiling |
| `Listing.List` | db.js:119-163 | Definition: the count query's error, or the page of the sorted matches with the total, the page count and the page asked for; only for requests that get an answer. `Listing.ListPageContents` and `Listing.ListFacts` prove what a page holds |
| `Listing.TotalPagesBounds` | db.js:152 | `totalPages` is at least 1. It is 1 when `total == 0`, and otherwise `(totalPages-1)*pageSize < total <= totalPages*pageSize` |
| `Listing.WindowBounds` | db.js:143-147 | The page holds the rows from offset `(page-1)*pageSize` on: `pageSize` of them, or as many as remain, or none past the end. Pages up to `totalPages` are non-empty for a non-empty result; later pages are empty |
| `Listing.WindowContents` | db.js:143-147 | `LIMIT size OFFSET offset` holds exactly the rows from the offset on, in order: `size` of them, or as many as remain, or none past the end |
| `Listing.WindowOfSorted` | db.js:141-147 | A window cut from sorted rows is sorted and holds only those rows |
| `Listing.PageOfContents` | db.js:138-160 | The page holds the sorted matching rows from offset `(page-1)*pageSize` on, element by element, with its exact length |
| `Listing.PageOfRows` | db.js:125-147 | Every row on the page is a table row that matches the filter, and the page is in the requested order |
| `Listing.PageOfFacts` | db.js:119-160 | The page holds matching table rows, at most a page of them, in order. `total` counts all matches, `totalPages` obeys the ceiling bounds, and `currentPage == page` |
| `Listing.ListPageContents` | db.js:138-160 | For a request that gets an answer, the page holds the sorted matching rows from offset `(page-1)*pageSize` on, in order: `pageSize` of them, or as many as remain, or none once the offset is past the matches |
| `Listing.ListFacts` | db.js:119-163 | For a request that gets an answer: the listed rows are table rows matching the filter, at most a page of them, in the requested order. `total` counts all matches, ignoring paging. `totalPages` obeys the bounds above, and `currentPage == page`. The answer is an error iff the count query fails (unknown column, `id` or `birthDate`) |
| `Listing.ListSingleMatch` | db.js:125-160 | A filter that matches exactly one row, with a sort that runs, lists just that row on page 1, with total 1 and one page |
| `Store.Consistent` | db.js:13-16 | Definition: what the schema keeps true. Every key came from the SERIAL sequence (from 1, below its next value), keys are distinct (PRIMARY KEY), and so are studentIds (UNIQUE). `Store.AddFacts`, `Store.UpdateFacts` and `Store.DeleteFacts` prove every write preserves it |
| `Store.AddFacts` | db.js:78-117 | Unforced, a failed check returns that kind and changes nothing, and a passing check always inserts. Forced, the insert succeeds iff the studentId is free, and a taken one fails with the UNIQUE violation message. A success appends exactly one row: the submitted fields under a key larger than every existing key. Consistency is preserved |
| `Store.AddKeepsUnique` | db.js:104-113 | Creates that pass the check keep studentId, phone, email and name pairwise distinct |
| `Store.UpdateFacts` | db.js:165-205 | Unforced, a failed check returns that kind and changes nothing, and a passing check always writes. A forced update of an existing key fails, with the UNIQUE violation message and no change, exactly when another row holds the studentId. On success `affectedRows` is 1 if the key exists and 0 if not; only that row changes, getting all seven fields and keeping its key. Consistency is preserved |
| `Store.UpdateKeepsUnique` | db.js:192-201 | Updates that pass the check keep studentId, phone, email and name pairwise distinct |
| `Store.DeleteFacts` | db.js:207-211 | `affectedRows` is 1 if the key exists and 0 if not. Exactly the other rows remain, and the key is gone. Consistency is preserved |
| `Store.Inserted` | db.js:79-102 | Definition: the INSERT takes the next key whatever happens, then appends the row or fails on a taken studentId. `Store.AddFacts` proves its outcomes |
| `Store.Add` | db.js:78-117 | Definition: the duplicate check unless forced, then the insert. `Store.AddFacts` and `Store.AddKeepsUnique` prove its outcomes and what it preserves |
| `Store.Updated` | db.js:166-190 | Definition: the UPDATE rewrites the row with the key and reports `rowCount`, or fails on a studentId another row holds. `Store.UpdateFacts` proves its outcomes |
| `Store.Update` | db.js:165-205 | Definition: the duplicate check excluding the row itself unless forced, then the update. `Store.UpdateFacts` and `Store.UpdateKeepsUnique` prove its outcomes and what it preserves |
| `Store.Delete` | db.js:207-211 | Definition: the rows of other keys and the affected count. `Store.DeleteFacts` proves its outcomes |
| `Store.CreatedRowIsFound` | db.js:79-101 | A created record is selected by the list filter on its own studentId |
| `Store.DeletedRowIsNotListed` | db.js:207-211 | After a delete, no page of any answered listing contains that key |
| `Store.ListEmptyTable` | db.js:149-160 | With a filter and a sort that both run, an empty table lists no rows, with total 0, one page and the requested page |
| `Store.StudentTable.constructor` | db.js:11-21 | A new table is empty, and its key sequence starts at 1 |
| `Store.StudentTable.InsertRow` | db.js:79-102 | The insert step takes the next key, then appends the row or fails on a taken studentId, as `Store.Inserted` says |
| `Store.StudentTable.AddStudent` | db.js:78-117 | The table and the outcome become those of `Store.Add`, and the table stays consistent |
| `Store.StudentTable.UpdateRow` | db.js:166-190 | The update step rewrites the row or fails on a studentId another row holds, as `Store.Updated` says |
| `Store.StudentTable.UpdateStudent` | db.js:165-205 | The table and the outcome become those of `Store.Update`, with an absent `force` meaning false; the table stays consistent |
| `Store.StudentTable.DeleteStudent` | db.js:207-212 | The table and the count become those of `Store.Delete`; the count is at most 1 |
| `Store.StudentTable.GetStudents` | db.js:119-163 | For a request that gets an answer, the result is `Listing.List` of the current rows: at most `pageSize` rows, all from the table, and `currentPage == page` |
| `Api.OriginPolicy` | app.js:8-22 | An absent or an empty origin is accepted. A non-empty origin is accepted iff it is one of the four listed. There is no wildcard, and near variants are rejected |
| `Api.OriginAllowed` | app.js:16-22 | Definition: `!origin || allowedOrigins.includes(origin)`. `Api.OriginPolicy` proves which origins pass |
| `Api.ListOptionsOf` | app.js:55-62 | Definition: the `||` defaulting of the six list parameters. `Api.ListDefaults` proves its rule for every input |
| `Api.ListDefaults` | app.js:55-62 | Each text parameter that is absent or empty takes its default (`""`, `""`, `id`, `asc`) and is otherwise passed on unchanged. `page` and `pageSize` that are NaN or 0 take 1 and 10 and are otherwise passed on unchanged. So missing filter parameters mean no filter, the default sort is ascending on `id` (a sort that runs), and non-negative numbers end up positive |
| `Api.FailureResponseFacts` | app.js:32-47 | Each kind has its own code, and the client can map it back to the kind. Only `duplicate` is sent with status 200, every other kind with 500. No failure is sent with code 0. The body echoes `type` and `msg` |
| `Api.FailureResponse` | app.js:32-47 | Definition: status and code by failure kind, echoing `type` and `msg`. `Api.FailureResponseFacts` proves each kind's code and its inverse |
| `Api.CreateResponse` | app.js:31-51 | Definition: a failure's response, or 200 with code 0 and the record. `Api.SuccessCodeMeansWritten` and `Routes.CreateOutcomes` prove what a client sees |
| `Api.UpdateResponse` | app.js:74-98 | Definition: a failure's response, 404 with code -1 when no row was affected, otherwise 200 with the path id and the fields. `Api.AffectedRowsRule` and `Routes.UpdateOutcomes` prove what a client sees |
| `Api.DeleteResponse` | app.js:103-109 | Definition: 500 on an error, 404 when no row was affected, otherwise 200 with success. `Api.AffectedRowsRule` and `Routes.DeleteOutcomes` prove what a client sees |
| `Api.NotFoundMessage` | app.js:94 | Definition: `Student No.${id} does not exist, please check!`, the 404 text of update and of delete (app.js:107), with the id written in decimal. `Api.AffectedRowsRule` proves when it is sent |
| `Api.ListResponse` | app.js:63-68 | Definition: 500 with the error's message, or 200 with success and the page. `Routes.GetStudentList` ties it to the table |
| `Api.MergedAsWritten` | app.js:97 | Definition: `{ id, ...student }` as written, where a client-sent `student.id` comes last and wins. `Api.MergedAsWrittenLosesKey` exhibits the lost key |
| `Api.MergedAsWrittenLosesKey` | app.js:97 | With the spread as written, a `student.id` sent by the client replaces the key in the response |
| `Api.AffectedRowsRule` | app.js:93-108 | If no row was affected, update answers 404 `{code: -1, msg}` and delete answers 404 `{success: false, message}`. Otherwise both answer 200 with success |
| `Api.SuccessCodeMeansWritten` | app.js:31-51 | A create answers with a record iff it succeeded; every failure carries a non-zero code |
| `Routes.PostStudent` | app.js:28-52 | The create endpoint's table and response are those of `Store.Add` mapped by `Api.CreateResponse`; an absent `force` means false |
| `Routes.GetStudentList` | app.js:54-69 | For a request that gets an answer, the list endpoint answers `Listing.List` of the table, under the defaulted options, mapped by `Api.ListResponse` |
| `Routes.PutStudent` | app.js:71-99 | The update endpoint's table and response are those of `Store.Update` mapped by `Api.UpdateResponse` |
| `Routes.DeleteStudentById` | app.js:101-110 | The delete endpoint's table and response are those of `Store.Delete` mapped by `Api.DeleteResponse` |
| `Routes.CreateOutcomes` | app.js:31-51 | All-new values give 200, code 0, the submitted fields and a fresh key. Unforced duplicates add no row: studentId, phone and email give 500 with -2, -3 and -4, and name gives 200 with 1. Forced, only a taken studentId fails, with 500 and -1 |
| `Routes.ForceOverridesNameDuplicate` | app.js:29-50 | A student whose only collision is its name is refused with code 1 when not forced, and added when forced |
| `Routes.UpdateOutcomes` | app.js:74-98 | An unknown key gives 404 unless the check fails first. An existing key with no collision gives 200 with the path id and the fields, and only that row is rewritten. A failed check gives that kind's response |
| `Routes.DeleteOutcomes` | app.js:103-109 | Deleting an existing key gives 200 `{success: true}` and removes the key. An unknown key gives 404 and changes nothing |
| `Routes.ListEmptyDefault` | app.js:54-68 | On an empty table, a list request with default paging, a filter that runs and a sort that runs answers 200 with `{list: [], total: 0, totalPages: 1, currentPage: 1}` |

## Left out

- Connections, pooling, SSL settings, `initTable`'s DROP/CREATE and its logging (db.js:1-39): I/O.
- Express wiring: body parsing, static files, `listen`, and the CORS middleware's mechanics and `credentials` flag. Only the origin predicate is modelled.
- Callbacks and asynchrony. The model is sequential, so it does not capture the race between the duplicate check and the write, which are not atomic.
- Storage failures other than the UNIQUE violation are not modelled: connectivity loss, and the `sysErr` branches of the validator (db.js:44-65, 106-108, 194-196). The in-memory table never fails that way.
- SQL text construction. Interpolating `filterColumn` into the query is not modelled as injection: a name outside the eight columns is the count query's error.
- Four PostgreSQL details: the wildcards `%` and `_` and the default escape character `\` inside a keyword, which the model treats as plain characters; locale-dependent case folding and collation; and the date type of `birthDate`, whose value the model holds as text and which a response carries as a JavaScript `Date`. Lower-casing covers ASCII letters only, and text sorts by character code.
- `Listing.List`: requires `Listing.Answered`, so it has no result for a sort on `studentId` or `birthDate` unless the count query has already failed. Those two names are unquoted, so the list query fails, and db.js:156 then dereferences an undefined result and crashes. `Listing.ListFacts`, `Listing.ListPageContents`, `Listing.ListSingleMatch`, `Store.DeletedRowIsNotListed`, `Store.ListEmptyTable` and `Routes.ListEmptyDefault` carry the same restriction.
- `Listing.List`: `Listing.Answered` also excludes a `pageSize` or an offset `(page-1)*pageSize` above 9223372036854775807, such as `?page=1000000000000000000`, unless the count query has already failed. PostgreSQL takes LIMIT and OFFSET as `bigint`, so the list query fails after the count query succeeded, and db.js:156 crashes as above. The model does not capture the rounding of `page`, `pageSize` and the offset to JavaScript doubles above 2^53, which can move that boundary.
- `Store.StudentTable.GetStudents`: requires `Listing.Answered`, for the reason above, and `page >= 1` and `pageSize >= 1`. Negative values get past the `||` defaulting (app.js:60-61), and their behaviour is not modelled.
- `Routes.GetStudentList`: requires the parsed `page` and `pageSize` not to be negative, for the same reason, and requires `Listing.Answered` of the defaulted options, so a sort on `studentId` or `birthDate` with a filter that runs is not modelled.
- The crash paths after a failed query (db.js:156, 210). The delete and list handlers are modelled on the success path, plus the count-query error.
- `parseInt` parsing is abstracted as "an integer, or none for NaN". Path ids are integers, so a NaN path id is not modelled. The driver sends it as the text `NaN` to an integer parameter, so the query fails. An unforced PUT then answers 500 with code -1 from `checkDuplicate` (db.js:193-196, app.js:88-89), and a forced PUT does the same from the UPDATE (db.js:185-186). A DELETE crashes at db.js:210.
- `Routes.PutStudent` and `Routes.DeleteStudentById` take the path id as an unbounded integer. The column `id` is a PostgreSQL `integer`, so an id outside -2147483648..2147483647 (3000000000, say) makes the same statements fail as a NaN id. The source then answers 500 with code -1 on PUT and crashes on DELETE, where these methods answer 404.
- `Routes.PostStudent` and `Routes.PutStudent` store `birthDate` as text. A value that is not a date (the column is `DATE NOT NULL`, db.js:17) makes the INSERT or UPDATE fail, and the source answers 500 with code -1, where the model stores the row.
- JavaScript truthiness of values that are not booleans or strings (a string `force`, array-valued query parameters) is not modelled. `force` is true, false or absent.
- The record of a create or update response is `{ id, ...student }` (db.js:99, app.js:97). It echoes every property the client's `student` carries, including properties beyond the seven columns, and echoes each value as sent, such as a numeric `phone`. `Api.StudentBody` and `Record(0, Row)` keep only the seven columns as text, plus `id`.
- The fall-through to the success response for an unknown `err.type` (app.js:50) is not modelled. Failure kinds are a closed datatype, so that path cannot arise.

## Findings

| source | as written | input that shows it | evidently intended | confidence | as-written member | corrected member |
|---|---|---|---|---|---|---|
| app.js:97 | `data: { id, ...student }` spreads the client's `student` after the path id | PUT `/api/students/7` whose `student` has `id: 3` answers with `data.id == 3`, though row 7 was updated | the response reports the updated row's key | not executed; medium | `Api.MergedAsWrittenLosesKey` | `Routes.UpdateOutcomes` |
| db.js:99 | `{ id: result.rows[0].id, ...student }` lets a client `student.id` override the generated key | POST whose `student` has `id: 3` while the sequence hands out 7 answers with `data.id == 3` | the response reports the generated key | not executed; medium | `Api.MergedAsWrittenLosesKey` | `Routes.CreateOutcomes` |
