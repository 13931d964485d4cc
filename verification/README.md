# nest-on-leave-service in Dafny

This project models the core of a NestJS leave-management service (Indonesian domain terms: *pegawai* = employee, *cuti* = leave, *alasan* = reason, *tanggal mulai / selesai* = start / end date) and proves properties of the model.

The model covers:

- **CutiService**: the leave rules. `applyCuti` checks that the employee exists, that the end date is not before the start date, the 12-day yearly limit and the one-leave-per-month rule. `updateCuti` and `deleteCuti` refuse a leave that is ongoing. `findByPegawai` and `findAll` are the queries.
- **PegawaiService** and **AdminService**: email-keyed tables with create, update, delete, lookup and a paginated list. Each write runs in a transaction whose `catch` re-throws one deliberate exception (Conflict or NotFound) and turns every other failure into a 500. The admin table stores the password hashed and strips it from every reply.
- **AuthGuard**: public routes, the `Authorization: Bearer` header parser, access-token verification, and the refresh-token fallback that issues a new access token.
- **LeaveDirectory**: the two tables together. Every leave belongs to an employee that exists, and deleting an employee cascades to that employee's leaves (`onDelete: 'CASCADE'`).

Everything is an immutable datatype with pure functions.

- The leave table is a `CutiStore`: a `seq<Cuti>` in insertion order plus the auto-increment counter.
- The employee and admin tables are `map<Email, _>`.
- Civil dates are proleptic Gregorian. `Calendar.DayNumber` numbers the days, so a leave's inclusive span is `DayNumber(end) - DayNumber(start) + 1`. "Now" is an explicit `Clock`: a date plus milliseconds since midnight.
- These are parameters:
  - database failures: a `DbFault` saying which database call throws;
  - bcrypt: a function `hash`;
  - JWT verification and signing: the functions `verifyAccess`, `verifyRefresh` and `sign`.
- Files:
  - `wrappers.dfy`: Option and Result;
  - `calendar.dfy`: dates and instants;
  - `paging.dfy`: filtering, descending sort and skip/take pagination;
  - `service_errors.dfy`: the catch discipline;
  - `cuti_service.dfy` and `cuti_properties.dfy`: the leave rules and their properties;
  - `pegawai_service.dfy`, `admin_service.dfy`, `auth_guard.dfy` and `leave_directory.dfy`: the other services and the cascade.

### Behaviour of the leave rules worth knowing

- There is **no per-request span cap**. A 5-day request with no history is accepted (`CutiProperties.FiveDayRequestAccepted`).
- There is **no interval-overlap check**. Two leaves on the same day are refused only by the monthly rule.
- The **monthly rule** refuses a request when the employee has *any* leave whose start is in the same month number, *in any year*, with no day sum (`CutiProperties.MonthlyRuleIgnoresYear`).
- The **yearly window** is the calendar year of "now", not the year of the requested start (`CutiProperties.YearlyWindowFollowsNow`). As a result, bookings for next year are never counted against each other. The end-to-end test of the yearly limit (src/modules/cuti/cuti.e2e-spec.ts:135-153) seeds twelve one-day leaves in 2025 and expects the thirteenth to be refused; by this rule that holds only while "now" is in 2025.
- The **checks run in this order**: end before start, then yearly, then monthly. When several fail, the first one is reported.
- A missing employee or leave is a **BadRequest (400)**, not NotFound.
- **Ongoing** is strict on instants: `now > start-midnight && now < end-midnight + 1 day`. The first millisecond of the start day is therefore not ongoing (`CutiProperties.OngoingStartsAfterMidnight`).
- `applyCuti` runs no transaction, and `deleteCuti` has no cascade of its own.
- The controller parses a leave id with `ParseIntPipe`, so any integer, negative ones included, reaches the lookup; an id no record carries is "Cuti not found" (`CutiProperties.NegativeIdNotFound`).

## Model

| member | source | states |
|---|---|---|
| Calendar.InstantMs | src/modules/cuti/cuti.service.ts:117-121 | the instant "now" lies within its own day: at or after that day's midnight and before the next one |
| Calendar.MidnightsBoundDay | src/modules/cuti/cuti.service.ts:117-122 | an instant after the midnight that starts day a falls on a or later; an instant before the midnight that ends day b falls on b or earlier |
| Calendar.DayNumberOrder | src/modules/cuti/cuti.service.ts:25 | `isBefore` on two dates holds exactly when the first date comes earlier in the calendar |
| Calendar.DayNumberInjective | src/modules/cuti/cuti.service.ts:27 | two dates have the same day number iff they are the same date, so a span of 1 means start == end |
| Calendar.DaysBeforeYearStep | src/modules/cuti/cuti.service.ts:27 | the day count up to next year is this year's count plus 365 or 366 days, by the Gregorian leap rule |
| Calendar.DaysBeforeYearMonotone | src/modules/cuti/cuti.service.ts:27 | every day of an earlier year comes before the first day of a later year |
| Paging.Filter | src/modules/cuti/cuti.service.ts:31-36 | a query's WHERE clause: exactly the rows that satisfy the condition, no others |
| Paging.FilterPreservesPairwise | src/modules/cuti/cuti.entity.ts:18 | deleting rows by a condition keeps any relation that held between every pair of rows |
| Paging.SortDesc | src/modules/cuti/cuti.service.ts:74 | `orderBy ... DESC`: the result is in non-increasing key order, is a permutation of the input and has its length |
| Paging.Paginate | src/modules/cuti/cuti.service.ts:96-97 | `skip((page-1)*limit).take(limit)`: exactly `limit` rows while that many remain past the offset, the remainder on the last page, none past the end, and row i of the page is row `(page-1)*limit + i` |
| Paging.OffsetStep | src/modules/cuti/cuti.service.ts:96 | the offset of page n is `(n-1)*limit`, and page n ends at `n*limit` |
| Paging.SliceSorted | src/modules/cuti/cuti.service.ts:95-97 | a contiguous run of a descending order is in descending order |
| Paging.PageOfSortedIsSorted | src/modules/cuti/cuti.service.ts:95-97 | a page cut from a descending order is itself in descending order |
| Paging.PagesCoverPrefix | src/modules/cuti/cuti.service.ts:96-97 | pages 1..n laid end to end are exactly the first n*limit rows (all rows once those run out), so no row is skipped or repeated between pages |
| Paging.ReadPagesAreFirstPages | src/modules/cuti/cuti.service.ts:96-97 | an endpoint whose page k is the k-th page of a sequence is read, over pages 1..n, as the first n pages of that sequence |
| Paging.ReadAllPages | src/modules/cuti/cuti.service.ts:96-97 | reading pages 1..n of such an endpoint gives exactly n*limit rows, the first ones, while rows remain, and the whole sequence once the pages cover it |
| Paging.KeyOrder | src/modules/pegawai/pegawai.service.ts:35-39 | a listing order of a key set: as many keys as the set, each key once, and exactly the keys of the set |
| Paging.Rows | src/modules/pegawai/pegawai.service.ts:35-39 | the rows of a keyed table in key order: one row per key, row i being the row stored under key i |
| Paging.RowsCoverTable | src/modules/pegawai/pegawai.service.ts:35-39 | every row of the table appears in its listing, and every listed row is a row of the table |
| Paging.Map | src/modules/admin/admin.service.ts:41 | `data.map(...)`: same length, and element i of the result is the function applied to element i |
| Paging.MapPaginate | src/modules/admin/admin.service.ts:35-41 | stripping the rows of a page gives the same page as cutting it from the stripped rows |
| Paging.MapSortDesc | src/modules/admin/admin.service.ts:35-41 | a map that keeps the sort key commutes with the descending sort |
| Paging.MapRowsAgree | src/modules/admin/admin.service.ts:35-41 | two tables with the same keys whose rows agree under a map list rows that agree under that map, position by position |
| Paging.MapPagesAgree | src/modules/admin/admin.service.ts:35-41 | two sequences that agree under a key-keeping map give pages that agree under it |
| Paging.PageOfSortComesFrom | src/modules/cuti/cuti.service.ts:91-101 | every row on a page of the sorted records is one of the records |
| Paging.PageRowsComeFromTable | src/modules/pegawai/pegawai.service.ts:35-39 | every row on a page of a keyed table is a row of that table |
| CutiService.IsOngoing | src/modules/cuti/cuti.service.ts:117-122 | a leave is ongoing only when today's day lies between its start day and its end day, inclusive |
| CutiService.Merge | src/modules/cuti/cuti.service.ts:129-135 | the record with the patch applied: id and owner kept, each supplied date replaces the stored one, an absent date keeps it, a non-empty reason replaces the stored one, an absent or empty reason keeps it (line 200) |
| CutiService.FindIndex | src/modules/cuti/cuti.service.ts:105-115 | the lookup by primary key finds a row with that id exactly when one exists, and the first one |
| CutiService.ApplyCuti | src/modules/cuti/cuti.service.ts:18-65 | "Pegawai not found" iff the email is not registered; "end before start" iff registered and the end precedes the start; on success exactly one record is appended, carrying the new id, reason, dates and owner, and the counter advances |
| CutiService.UpdateCuti | src/modules/cuti/cuti.service.ts:104-209 | "Cuti not found" iff no record has the id, for any integer id, negative included; success keeps the id, the number of records and the counter |
| CutiService.RemoveId | src/modules/cuti/cuti.service.ts:236 | removing a row keeps exactly the rows with a different id |
| CutiService.DeleteCuti | src/modules/cuti/cuti.service.ts:211-242 | "Cuti not found" iff no record has the id, for any integer id; success removes exactly the records with that id and keeps the counter |
| CutiService.FindByPegawai | src/modules/cuti/cuti.service.ts:67-89 | "Pegawai not found" iff the email is not registered; otherwise exactly that employee's records, each as many times as stored, latest start first, with the "no leave data" message iff there are none |
| CutiService.FindAll | src/modules/cuti/cuti.service.ts:91-102 | page and limit default to 1 and 10; total is the number of all records; exactly `limit` rows while that many remain past the offset, the remainder on the last page, none past the end; each from the store, latest start first |
| CutiProperties.MonthQueryNonEmpty | src/modules/cuti/cuti.service.ts:49-56 | the monthly count is positive exactly when some other record of the employee starts in that month number |
| CutiProperties.YearTotalAfterAppend | src/modules/cuti/cuti.service.ts:31-42 | inserting a record raises an employee's yearly day sum by its span exactly when it is that employee's and starts in that year |
| CutiProperties.RemoveIdIsRemoveAt | src/modules/cuti/cuti.service.ts:236 | with unique ids, removing a record by id removes just its position and keeps the order of the rest |
| CutiProperties.FindIndexOfUniqueId | src/modules/cuti/cuti.service.ts:105-108 | with unique ids, the lookup of a record's id finds that record's position |
| CutiProperties.OngoingMeansTodayWithinRange | src/modules/cuti/cuti.service.ts:117-122 | ongoing iff today is between the start and end days, inclusive, except at the very first millisecond of the start day |
| CutiProperties.ApplyDecision | src/modules/cuti/cuti.service.ts:19-56 | the complete, ordered decision of apply: each error iff every earlier check passed and this one fails; success iff all pass |
| CutiProperties.ApplyKeepsCurrentYearWithinLimit | src/modules/cuti/cuti.service.ts:28-46 | after a successful apply the employee's day sum for now's year is at most 12, and no other employee's yearly sums change |
| CutiProperties.ApplyPreservesValidStore | src/modules/cuti/cuti.service.ts:25-64 | apply keeps ids unique and below the counter, and every stored span at least one day |
| CutiProperties.ApplyPreservesOneLeavePerMonth | src/modules/cuti/cuti.service.ts:48-56 | apply keeps each employee to at most one leave per month number |
| CutiProperties.UpdateOngoingRejected | src/modules/cuti/cuti.service.ts:117-127 | an ongoing record is refused whatever the patch holds |
| CutiProperties.UpdateDecision | src/modules/cuti/cuti.service.ts:117-193 | the complete, ordered decision of update on the merged dates, counting only the employee's other records |
| CutiProperties.UpdateFrame | src/modules/cuti/cuti.service.ts:129-202 | a successful update rewrites only that record's position; id and owner are kept; supplied dates replace; absent dates and an absent or empty reason keep the old values |
| CutiProperties.MergeIdempotent | src/modules/cuti/cuti.service.ts:129-135 | applying a patch twice is applying it once; an empty patch, or one whose only field is an empty reason, changes nothing |
| CutiProperties.EmptyPatchPassesMonthlyCheck | src/modules/cuti/cuti.service.ts:180-193 | on a store that keeps its invariants, an empty patch on a record that is not ongoing passes the end-date and monthly checks, because the record's own row is excluded |
| CutiProperties.UpdatePreservesValidStore | src/modules/cuti/cuti.service.ts:137-202 | update keeps ids unique and below the counter, and every span at least one day |
| CutiProperties.UpdatePreservesOneLeavePerMonth | src/modules/cuti/cuti.service.ts:178-202 | update keeps each employee to at most one leave per month number |
| CutiProperties.DeleteDecision | src/modules/cuti/cuti.service.ts:211-236 | deleting an existing record fails iff it is ongoing; otherwise exactly its position is removed |
| CutiProperties.RemoveAtPreservesValidStore | src/modules/cuti/cuti.service.ts:236 | removing one row keeps ids unique and below the counter, and every span at least one day |
| CutiProperties.DeletePreservesValidStore | src/modules/cuti/cuti.service.ts:211-236 | delete keeps the store's invariants |
| CutiProperties.DeletePreservesOneLeavePerMonth | src/modules/cuti/cuti.service.ts:211-236 | delete keeps each employee to at most one leave per month number |
| CutiProperties.ApplyThenListed | src/modules/cuti/cuti.service.ts:57-89 | after a successful apply, the employee's listing contains the new record and carries no "no leave data" message |
| CutiProperties.DeleteThenNotListed | src/modules/cuti/cuti.service.ts:67-89 | after a successful delete, no listing shows a record with that id, and every other record of the owner is still listed |
| CutiProperties.FindAllPage | src/modules/cuti/cuti.service.ts:91-101 | the rows of page p are the p-th page of all records sorted latest start first |
| CutiProperties.FindAllIsPageOfSortedRecords | src/modules/cuti/cuti.service.ts:91-101 | every listing is a page of some arrangement of exactly the stored records, each as many times as stored, in non-increasing start order |
| CutiProperties.PagesListEveryRecord | src/modules/cuti/cuti.service.ts:91-101 | reading pages 1..n gives n*limit rows while records remain, and every stored record exactly as many times as stored once the pages cover the table |
| CutiProperties.FindAllOneRecord | src/modules/cuti/cuti.service.spec.ts:150-169 | with one record, page 1 of limit 10 and the defaulted call both list that record, with total 1, page 1 and limit 10 |
| CutiProperties.NegativeIdNotFound | src/modules/cuti/cuti.controller.ts:29-39 | a negative id, which the integer pipe lets through, is "Cuti not found" for both update and delete |
| CutiProperties.FiveDayRequestAccepted | src/modules/cuti/cuti.service.ts:27-46 | with no history, a 5-day request is accepted: no per-request cap exists |
| CutiProperties.TwelveDaysIsTheYearlyLimit | src/modules/cuti/cuti.service.ts:44-46 | a 12-day request fits the yearly limit exactly; a 13-day one is refused |
| CutiProperties.YearlyWindowFollowsNow | src/modules/cuti/cuti.service.ts:28-35 | a request for next year, made this year, is not counted against next year's bookings, so next year's total can reach 13 days |
| CutiProperties.MonthlyRuleIgnoresYear | src/modules/cuti/cuti.service.ts:48-56 | a February leave of last year blocks a February request this year |
| CutiProperties.SecondLeaveInMonthRefused | src/modules/cuti/cuti.service.ts:48-56 | a first one-day leave in February is accepted, and a second one in the same month is refused |
| CutiProperties.OngoingStartsAfterMidnight | src/modules/cuti/cuti.service.ts:117-122 | a one-day leave is not ongoing at its first instant, is ongoing one millisecond later and until the day ends, and is not ongoing the next midnight |
| ServiceErrors.Catch | src/modules/pegawai/pegawai.service.ts:60-64 | the chosen exception kind passes through unchanged; anything else becomes a 500 with the operation's fixed message, and that happens exactly when the error is not of the chosen kind |
| PegawaiService.FindByEmail | src/modules/pegawai/pegawai.service.ts:27-31 | the row stored under the email, or none exactly when the email is absent |
| PegawaiService.Create | src/modules/pegawai/pegawai.service.ts:48-66 | a taken email gives Conflict; success adds exactly the new key, returns the stored row and keeps every other row |
| PegawaiService.Update | src/modules/pegawai/pegawai.service.ts:68-88 | an absent email gives NotFound; success keeps the key set and the email, changes only that row and returns it; the table is left exactly as it was iff the patch changes no column |
| PegawaiService.Delete | src/modules/pegawai/pegawai.service.ts:90-105 | an absent email gives NotFound; success removes exactly that key and keeps every other row |
| PegawaiService.ApplyPatch | src/modules/pegawai/pegawai.service.ts:71-75 | each supplied field replaces the stored one and each absent field keeps it; the email and timestamps are kept |
| PegawaiService.FindAll | src/modules/pegawai/pegawai.service.ts:33-46 | succeeds iff no database call fails, else the list-failed 500; the total count; exactly `limit` rows while that many remain past the offset, the remainder on the last page, none past the end; newest first, each a row of the table |
| PegawaiService.FindAllPage | src/modules/pegawai/pegawai.service.ts:35-41 | the rows of page p are the p-th page of the table's rows sorted newest first |
| PegawaiService.FindAllIsPageOfSortedRows | src/modules/pegawai/pegawai.service.ts:35-41 | every listing is a page of some arrangement of exactly the table's rows, one per email, newest first |
| PegawaiService.PagesListEveryEmployee | src/modules/pegawai/pegawai.service.ts:35-41 | reading pages 1..n gives n*limit rows while rows remain, and every employee exactly once once the pages cover the table |
| PegawaiService.CreateErrorClassification | src/modules/pegawai/pegawai.service.ts:48-66 | create succeeds iff there is no fault and the email is new; Conflict iff the lookup works and the email is taken; never NotFound |
| PegawaiService.UpdateErrorClassification | src/modules/pegawai/pegawai.service.ts:68-88 | update succeeds iff there is no fault and the email exists; NotFound iff the lookup works and it is absent; never Conflict |
| PegawaiService.DeleteErrorClassification | src/modules/pegawai/pegawai.service.ts:90-105 | delete succeeds iff there is no fault and the email exists; NotFound iff the lookup works and it is absent; never Conflict |
| PegawaiService.CreateThenFind | src/modules/pegawai/pegawai.service.ts:51-59 | after creating a fresh email, the lookup returns the new row with the DTO's fields |
| PegawaiService.DeleteThenFind | src/modules/pegawai/pegawai.service.ts:93-98 | after deleting, the lookup returns none |
| PegawaiService.UpdateWritesSuppliedFields | src/modules/pegawai/pegawai.service.ts:71-75 | update overwrites exactly the supplied fields, keeps the rest, and never changes the email or the creation time; a patch that changes no column leaves the row, `updated_at` included, as stored, and any other patch stamps `updated_at` with now (src/modules/pegawai/pegawai.entity.ts:35-36) |
| PegawaiService.EmptyPatchKeepsRow | src/modules/pegawai/pegawai.service.ts:71-80 | an empty patch leaves the table unchanged and replies with the stored row |
| PegawaiService.WritesPreserveKeyedByEmail | src/modules/pegawai/pegawai.service.ts:48-105 | create, update and delete keep every row stored under its own email |
| AdminService.FindByEmail | src/modules/admin/admin.service.ts:29-31 | none exactly when the email is absent; in a table keyed by email, the row found carries the email it was looked up by |
| AdminService.Create | src/modules/admin/admin.service.ts:50-77 | a taken email gives Conflict; success stores `hash(password)`, never the plaintext, copies the other fields, adds exactly that key and replies with the row without its password |
| AdminService.Update | src/modules/admin/admin.service.ts:79-105 | an absent email gives NotFound; a non-empty supplied password is stored hashed; an absent one is kept; the reply is the row without its password; the table is left exactly as it was iff the patch changes no column |
| AdminService.Delete | src/modules/admin/admin.service.ts:107-122 | an absent email gives NotFound; success removes exactly that key |
| AdminService.StrippedRowsComeFromTable | src/modules/admin/admin.service.ts:41 | each password-free view on a page is the view of some row of the table |
| AdminService.FindAll | src/modules/admin/admin.service.ts:33-48 | succeeds iff no database call fails, else the list-failed 500; the total count; exactly `limit` password-free rows while that many remain past the offset, the remainder on the last page, none past the end; newest first, each the view of a row of the table |
| AdminService.FindAllPage | src/modules/admin/admin.service.ts:35-43 | the rows of page p are the p-th page of the table's rows sorted newest first, each without its password |
| AdminService.FindAllIsPageOfSortedRows | src/modules/admin/admin.service.ts:35-43 | every listing is a page of some newest-first arrangement of exactly the password-free views of the table's rows |
| AdminService.FindAllIgnoresPasswords | src/modules/admin/admin.service.ts:41-43 | two tables that differ only in passwords give identical listings: no password, hashed or not, reaches the reply |
| AdminService.ViewsOfSortedRows | src/modules/admin/admin.service.ts:35-41 | the stripped, sorted rows hold one view per admin, and every admin's view among them |
| AdminService.PagesListEveryAdmin | src/modules/admin/admin.service.ts:35-43 | reading pages 1..n gives n*limit rows while rows remain, and every admin's password-free view once the pages cover the table, one per admin |
| AdminService.CreateThenFind | src/modules/admin/admin.service.ts:53-66 | after creating a fresh email, the lookup returns the new row with the DTO's fields and the hashed password |
| AdminService.DeleteThenFind | src/modules/admin/admin.service.ts:110-115 | after deleting, the lookup returns none |
| AdminService.WritesPreserveKeyedByEmail | src/modules/admin/admin.service.ts:50-122 | create, update and delete keep every row stored under its own email |
| AdminService.CreateErrorClassification | src/modules/admin/admin.service.ts:50-77 | create succeeds iff there is no fault and the email is new; Conflict iff the lookup works and the email is taken; never NotFound |
| AdminService.UpdateErrorClassification | src/modules/admin/admin.service.ts:79-105 | update succeeds iff there is no fault and the email exists; NotFound iff the lookup works and it is absent; never Conflict |
| AdminService.DeleteErrorClassification | src/modules/admin/admin.service.ts:107-122 | delete succeeds iff there is no fault and the email exists; NotFound iff the lookup works and it is absent; never Conflict |
| AdminService.PatchedPassword | src/modules/admin/admin.service.ts:85-90 | an absent password keeps the stored one; a non-empty one is stored hashed; a password that differs from the stored one and is non-empty is always the hash of the supplied one, never plaintext |
| AdminService.UpdateWritesSuppliedFields | src/modules/admin/admin.service.ts:82-91 | update overwrites exactly the supplied fields, keeps the rest, and never changes the email or the creation time; a patch that changes no column leaves the row, `updated_at` included, as stored, and any other patch stamps `updated_at` with now (src/modules/admin/admin.entity.ts:35-36) |
| AdminService.EmptyPatchKeepsRow | src/modules/admin/admin.service.ts:82-98 | an empty patch leaves the table unchanged and replies with the stored row without its password |
| AdminService.PasswordOnlyPatchMovesUpdatedAt | src/modules/admin/admin.service.ts:85-97 | a password-only patch whose hash differs from the stored password replies with `updated_at` = now, while the empty patch replies with the stored time |
| AdminService.SuppliedPasswordStoredHashed | src/modules/admin/admin.service.ts:85-90 | a supplied password that satisfies the DTO's minimum length is always stored hashed |
| AdminService.EmptyPasswordStoredUnhashed | src/modules/admin/admin.service.ts:85-90 | an empty supplied password skips hashing but is still assigned, so the stored password becomes empty |
| AdminService.CreateReplyIndependentOfPassword | src/modules/admin/admin.service.ts:68-70 | two creates that differ only in the password give identical replies |
| AdminService.UpdateReplyIndependentOfPassword | src/modules/admin/admin.service.ts:93-97 | two updates that differ only in the password both succeed or both fail, and give replies equal in every field but `updated_at`; when the rest of the patch changes a column, the replies are identical |
| AuthGuard.Split | src/middleware/auth.guard.ts:64 | `split(' ')` gives at least one field, no field contains a space, and joining the fields with spaces restores the string |
| AuthGuard.SplitAtFirst | src/middleware/auth.guard.ts:64 | the text before the first space is the first field, and the rest splits on its own |
| AuthGuard.SplitNoSeparator | src/middleware/auth.guard.ts:64 | a string without spaces is a single field |
| AuthGuard.SplitJoin | src/middleware/auth.guard.ts:64 | splitting undoes joining for fields without spaces |
| AuthGuard.FirstFieldIsPrefix | src/middleware/auth.guard.ts:64 | the first field is a prefix of the string, followed by a space when more fields follow |
| AuthGuard.BearerFields | src/middleware/auth.guard.ts:63-66 | the first field is "Bearer" and a second exists iff the header starts with "Bearer "; the second field is the text up to the next space |
| AuthGuard.ExtractTokenFromHeader | src/middleware/auth.guard.ts:63-66 | a token comes back iff the header is present and starts with "Bearer " (case-sensitive); it is the text after that prefix, up to the next space or the end |
| AuthGuard.BearerTokenRoundTrip | src/middleware/auth.guard.ts:63-66 | "Bearer t", optionally followed by a space and anything, yields exactly t, for every t without spaces, the empty one included |
| AuthGuard.SchemeIsCaseSensitive | src/middleware/auth.guard.ts:65 | "bearer t" and a bare "Bearer" carry no token |
| AuthGuard.RefreshToken | src/middleware/auth.guard.ts:40 | the token is one of the two sources; it is non-empty iff the cookie or the header is; a non-empty cookie wins over the header |
| AuthGuard.CanActivate | src/middleware/auth.guard.ts:20-61 | a public route is allowed without a user; any other allowed request has a non-empty bearer token and a user; a new access token is issued only after the access token failed and the refresh token verified to that user; the "1003" refusal happens only when a refresh token was given |
| AuthGuard.GuardDecisionTable | src/middleware/auth.guard.ts:32-58 | for non-public routes, the complete decision by token, access verification, refresh presence, refresh verification and signing |
| AuthGuard.EmptyBearerTokenRefused | src/middleware/auth.guard.ts:32-33 | "Bearer " with nothing after it yields an empty token and is refused with the not-allowed message |
| LeaveDirectory.NotOwnedBy | src/modules/cuti/cuti.entity.ts:18 | the leaves that survive the cascade are exactly those of other employees |
| LeaveDirectory.DeletePegawai | src/modules/cuti/cuti.entity.ts:18 | an employee delete fails exactly when the employee service's delete fails; on success the key is gone, exactly that employee's leaves are gone and the id counter is kept |
| LeaveDirectory.Apply | src/modules/cuti/cuti.service.ts:19-65 | "Pegawai not found" iff the email is not a key of the employee table; success leaves the employee table alone and appends exactly the new record to the leave table, advancing the counter |
| LeaveDirectory.ApplyPreservesOwners | src/modules/cuti/cuti.service.ts:19-20 | after apply, every leave still belongs to an existing employee |
| LeaveDirectory.UpdatePreservesOwners | src/modules/cuti/cuti.service.ts:145 | update never changes a leave's owner, so every leave still belongs to an existing employee |
| LeaveDirectory.DeleteLeavePreservesOwners | src/modules/cuti/cuti.service.ts:236 | deleting a leave keeps every remaining leave owned by an existing employee |
| LeaveDirectory.CreatePegawaiPreservesOwners | src/modules/pegawai/pegawai.service.ts:48-66 | creating an employee keeps every leave owned by an existing employee |
| LeaveDirectory.UpdatePegawaiPreservesOwners | src/modules/pegawai/pegawai.service.ts:68-88 | updating an employee keeps the key set, so every leave keeps an existing owner |
| LeaveDirectory.DeletePegawaiPreservesOwners | src/modules/cuti/cuti.entity.ts:18 | with the cascade, deleting an employee leaves no orphaned leave |
| LeaveDirectory.DeletedPegawaiHasNoLeave | src/modules/cuti/cuti.entity.ts:18 | after the cascade no leave names the deleted employee, and listing that employee's leaves gives "Pegawai not found" |
| LeaveDirectory.DeletePegawaiPreservesLeaveInvariants | src/modules/cuti/cuti.entity.ts:18 | the cascade keeps the leave table's unique ids, counter bound, positive spans and one leave per month |

## Left out

- TypeORM, query builders and transactions are not modelled. Tables are values, and a database failure is the `DbFault` parameter. Atomicity, isolation and the check-then-save race in `applyCuti`/`updateCuti`, which run without a transaction, are concurrency concerns.
- bcrypt and JWT are foreign libraries and appear only as the parameters `hash`, `verifyAccess`, `verifyRefresh` and `sign`. A verify or sign that throws is `None`. Secrets, expiry and `getOrThrow` on the configuration are inside those parameters.
- The admin entity's `@BeforeInsert`/`@BeforeUpdate` hook (src/modules/admin/admin.entity.ts:38-42) is not modelled. It re-hashes whatever the password column holds when TypeORM saves. Whether it fires depends on TypeORM's change detection. `hash` stands for the service's own `bcrypt.hash` call only.
- dayjs, time zones, daylight saving time and JavaScript `Date` conversion are not modelled. Every day has 86,400,000 ms. `now` is one `Clock` value per call; the code calls `dayjs()` more than once per request, which matters only across a year boundary.
- `created_at` / `updated_at` of a leave record are not modelled, because no rule reads them. Employee and admin timestamps are the `now` parameter. The save is modelled as TypeORM performs it: it compares the patched entity with the loaded row and writes, moving `updated_at`, only when some column differs.
- src/modules/auth/auth.service.ts, the controllers, modules, main.ts and the database and migration modules are not part of this model: they only wire things together.
- The class-validator DTO constraints are preconditions or types:
  - `page`/`limit` at least 1 are preconditions of the `FindAll` members;
  - valid dates are the `Date` subtype.

  Non-empty strings and the email format are not checked, because no rule depends on them.
- The order among rows with equal sort keys is left to the database. The model uses a stable insertion sort.
- PegawaiService.FindAll: it is a ghost function, because listing a map's rows needs a choice of order. Its contract and lemmas fix the rows of every page up to the order among rows with equal creation times, which the database also leaves open.
- AdminService.FindAll: it is a ghost function for the same reason, with the same guarantees over the password-free rows.
- AdminService.SuppliedPasswordStoredHashed: it requires a supplied password to have at least 6 characters, as the update DTO validates. `EmptyPasswordStoredUnhashed` covers the empty string, which the validator would reject.
- CutiService.ApplyCuti: the service returns nothing on success. The model returns the new store instead.
- The reply envelopes (`status: 'success'`, success messages) of the leave service are not modelled, except the "no leave data" message of `findByPegawai`.
- The Nest exception classes and their HTTP status codes are not modelled; each error is a datatype constructor (every leave error is a BadRequest, every service error a Conflict, NotFound or 500).
- Emails are compared exactly, character by character. The tables are MySQL tables, and neither the connection settings (src/database/database.module.ts:9-20) nor the migrations set a collation, so the server's default applies. That default is case-insensitive (and, with MySQL 8's utf8mb4_0900_ai_ci, also accent-insensitive); whether trailing spaces count depends on the server version. The database therefore treats "A@x.com" and "a@x.com" as the same key, while the model treats them as two keys. Modelling the collation would need Unicode case and accent folding, which the model does not have.
- AuthGuard.RefreshToken: the cookie source is a free input of the model. The application bootstrap (src/main.ts:8-19) installs no cookie parser, so `request.cookies` is undefined in the deployed app and the refresh token only ever comes from the `x-refresh-token` header; the model's cookie path covers a setup that is not wired up.
