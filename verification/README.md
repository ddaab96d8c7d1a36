# Employee directory: a Dafny model of the service core

The employee directory is a GraphQL service over a document store of
employee records, with a React client. This project models its core:

- **`Base`**: optional values, the `Result` of an operation that may throw,
  and the kinds of error the service throws.
- **`Text`**: the JavaScript string operations the service relies on, over
  `seq<char>`: `trim` with JavaScript's full white-space set, ASCII
  `toLowerCase` and `toUpperCase`, `split` on one character, `join`, and
  `replace` of the first occurrence of a fixed string.
- **`EmployeeSchema`**: the employee document schema
  (`backend/src/models/Employee.js`). It covers the `trim` and `lowercase`
  setters, the defaults for `subjects`, `attendance` and `isActive`, and the
  `required`/`min`/`max` validators. It covers them both when a record is
  built (`WithDefaults`) and when an update is applied with validators on
  (`ApplyUpdate`).
- **`Auth`**: the authentication middleware
  (`backend/src/middleware/auth.js`). `getUser` extracts the token from the
  `Authorization` header. `requireAuth` and `requireAdmin` are the guards.
- **`QueryBuilder`**: the read path of `Query.employees`. It turns the
  `filter` argument into a query document, chooses the sort document, and
  does the pagination arithmetic (`skip`, `Math.ceil`, `hasNextPage`).
- **`Resolvers`**: the resolvers (`backend/src/resolvers/index.js`).
  - The class `EmployeeService` holds the employee collection as a
    `map<EmployeeId, Employee>` that its methods update in place. Its
    methods are `employees`, `employee`, `createEmployee`, `updateEmployee`,
    `deleteEmployee` (a soft delete) and `deleteMultipleEmployees`. Every
    method keeps the store invariant: records valid, stored under their own
    id, and emails unique.
  - `login` over the user accounts.
  - The field resolvers for `User.role` and `Employee.joinDate`.
- **`Form`**: the client's employee form
  (`frontend/src/components/EmployeeForm.jsx`). It covers the form state,
  `handleChange`, the field-by-field `validateForm`, the `input` object that
  `handleSubmit` builds and sends, and the edit-mode initialisation from an
  existing record. The class `EmployeeForm` holds `formData`, `errors` and
  `loading`, as the component's state hooks do.

The main properties proved:

- `BuildQuery` builds a query document that selects exactly the records the
  filter describes, where a value of 0 counts as "no criterion".
- The page of `employees` is the right window of the matches. A page exists
  exactly when it is not past the last page.
- `createEmployee` and `updateEmployee` succeed exactly when the schema and
  the unique email index allow it. They keep every stored record valid and
  every email unique.
- Soft deletes are idempotent. The bulk delete reports every listed record
  that exists, because the update timestamp changes each of them.
- The form sends something exactly when validation records no error.
- The input the form builds is already normalised, so the schema's setters
  leave it unchanged.
- Subjects survive the form's `join(', ')` / `split(',')` round trip exactly
  when they are well formed.
- Submitting an edit form unchanged leaves the record as it was.

Calls into code the model cannot see are parameters of the members that use
them:

- `verify` and `findById` in `Auth.GetUser`: JWT verification and the user
  lookup.
- `passwordMatches` and `sign` in `Resolvers.Login`: the bcrypt comparison
  and token signing.
- `textMatches` in the query: the store's `$text` index.
- `arrange` in `Employees`: the store's ordering of a result.
- `Form.Numbers` in the form: JavaScript's `Number`, `parseInt`,
  `parseFloat` and `toString`.

## Model

| member | source | states |
|---|---|---|
| Text.TrimStartShape | backend/src/models/Employee.js:7 | Removing leading white space leaves a suffix of the text that does not start with white space, and everything removed was white space. |
| Text.TrimEndShape | backend/src/models/Employee.js:7 | Removing trailing white space leaves a prefix of the text that does not end with white space, and everything removed was white space. |
| Text.Trim | backend/src/models/Employee.js:7 | The result of `trim` neither starts nor ends with white space and is no longer than the input. |
| Text.TrimSpan | backend/src/models/Employee.js:7 | `trim` returns a contiguous slice of the input, and only white space lies outside the slice. |
| Text.TrimOfTrimmed | backend/src/models/Employee.js:7 | A text already trimmed is left unchanged by `trim`. |
| Text.TrimBlank | frontend/src/components/EmployeeForm.jsx:88 | `trim` gives the empty string exactly when the text is all white space, which is the `!value.trim()` test. |
| Text.TrimIdempotent | backend/src/models/Employee.js:7 | Trimming twice is the same as trimming once. |
| Text.TrimSpacePrefix | frontend/src/components/EmployeeForm.jsx:127 | A leading white-space character makes no difference to the trimmed text. |
| Text.TrimKeepsAbsent | frontend/src/components/EmployeeForm.jsx:127 | `trim` introduces no character that was not in the text, so a piece without a comma stays without one. |
| Text.Lower | backend/src/models/Employee.js:29 | `toLowerCase` keeps the length, and its result is lower case. |
| Text.Upper | backend/src/resolvers/index.js:260 | `toUpperCase` keeps the length, and its result is upper case. |
| Text.LowerOfLowerCase | backend/src/models/Employee.js:29 | A lower-case text is left unchanged by `toLowerCase`. |
| Text.UpperLowerRoundTrip | backend/src/resolvers/index.js:123 | Upper-casing and then lower-casing gives back the text exactly when the text was lower case. |
| Text.LowerUpperRoundTrip | backend/src/resolvers/index.js:260 | Lower-casing and then upper-casing gives back the text exactly when the text was upper case. |
| Text.LowerTrimStart | frontend/src/components/EmployeeForm.jsx:123 | Lower-casing commutes with removing leading white space. |
| Text.LowerTrimEnd | frontend/src/components/EmployeeForm.jsx:123 | Lower-casing commutes with removing trailing white space. |
| Text.LowerTrimCommute | frontend/src/components/EmployeeForm.jsx:123 | `trim().toLowerCase()` in the client equals the schema's `lowercase` then `trim`. |
| Text.LowerKeepsTrimmed | backend/src/models/Employee.js:29-30 | Lower-casing keeps a trimmed text trimmed. |
| Text.Split | frontend/src/components/EmployeeForm.jsx:127 | `split(',')` yields at least one piece, and no piece contains the separator. |
| Text.SplitNonSeparator | frontend/src/components/EmployeeForm.jsx:127 | A character other than the separator extends the first piece and leaves the rest as they were. |
| Text.JoinSplit | frontend/src/components/EmployeeForm.jsx:127 | Joining the pieces of a split with the separator gives back the text. |
| Text.SplitWithoutSeparator | frontend/src/components/EmployeeForm.jsx:127 | A text without the separator splits into itself alone. |
| Text.SplitAtSeparator | frontend/src/components/EmployeeForm.jsx:127 | A separator-free piece followed by the separator comes off as the first piece. |
| Text.SplitJoin | frontend/src/components/EmployeeForm.jsx:63 | Joining separator-free pieces and splitting again gives back the pieces. |
| Text.IndexOf | backend/src/middleware/auth.js:5 | Returns the first position where the pattern occurs, or none exactly when it occurs nowhere. |
| Text.RemoveFirst | backend/src/middleware/auth.js:5 | `replace` with a string pattern removes the pattern's first occurrence and nothing else. It leaves the text as is when the pattern does not occur. |
| Text.RemoveLeading | backend/src/middleware/auth.js:5 | When the text starts with the pattern, `replace` removes exactly that prefix. |
| Text.RemovePrefix | backend/src/middleware/auth.js:5 | `replace` on the pattern followed by a rest gives the rest. |
| EmployeeSchema.NormalizeEmail | backend/src/models/Employee.js:25-31 | The stored email is lower case and trimmed. |
| EmployeeSchema.TrimEach | backend/src/models/Employee.js:46-49 | Each `subjects` entry is trimmed, and the number of entries is kept. |
| EmployeeSchema.TrimOption | backend/src/models/Employee.js:56-59 | A given bio is trimmed, and a missing one stays missing. |
| EmployeeSchema.WithDefaults | backend/src/models/Employee.js:3-70 | A new document carries its id and creator and is active. Each text is the given text trimmed, the email is the given email lower-cased and trimmed, given subjects are stored with each entry trimmed, and a given bio is stored trimmed. Subjects default to empty and attendance to 0; a given attendance is stored as given. A bio is present exactly when one was given. |
| EmployeeSchema.PresentAfterTrim | backend/src/models/Employee.js:4-8 | A required trimmed text is non-empty exactly when the raw text was not all white space. |
| EmployeeSchema.NormalizeEmailBlank | backend/src/models/Employee.js:25-31 | The normalised email is empty exactly when the raw email is all white space. |
| EmployeeSchema.BuiltTextsPresent | backend/src/models/Employee.js:4-36 | Each required text of the built document is present exactly when the input's text is not blank. |
| EmployeeSchema.BuiltScalars | backend/src/models/Employee.js:9-55 | Age, salary and join date are taken as given. Attendance is the given value or 0. |
| EmployeeSchema.SchemaAcceptsExactly | backend/src/models/Employee.js:3-70 | The built document passes the validators exactly when the input is acceptable: required texts not blank, age in 18..100, salary at least 0, a join date, and attendance in 0..100 when given. |
| EmployeeSchema.NormalizeEmailFixes | backend/src/models/Employee.js:25-31 | A trimmed lower-case email is left unchanged by the email setters. |
| EmployeeSchema.TrimEachFixes | backend/src/models/Employee.js:46-49 | Subjects already trimmed are left unchanged by the setter. |
| EmployeeSchema.SettersKeepNormalized | backend/src/models/Employee.js:3-70 | Building a document from an already normalised input keeps its texts, email, subjects and bio exactly. |
| EmployeeSchema.ApplyUpdate | backend/src/resolvers/index.js:197-206 | An update changes only the fields it supplies, and each supplied field takes the supplied value through its setter: texts and the bio trimmed, the email lower-cased and trimmed, subjects trimmed entry by entry, numbers, date and `isActive` as given. Id and owner are kept. |
| EmployeeSchema.UpdatedTextPresent | backend/src/resolvers/index.js:202-206 | Starting from a present text, the updated text is present exactly when no blank replacement is supplied. |
| EmployeeSchema.UpdatedEmailPresent | backend/src/resolvers/index.js:202-206 | Starting from a present lower-case email, the updated email stays lower case. It is present exactly when no blank replacement is supplied. |
| EmployeeSchema.UpdatedTextsPresent | backend/src/resolvers/index.js:202-206 | On a valid record, each required text of the update result is present exactly when its patch value is not blank. |
| EmployeeSchema.UpdatedListsTrimmed | backend/src/resolvers/index.js:202-206 | On a valid record, the updated subjects and bio are trimmed. |
| EmployeeSchema.UpdateKeepsValid | backend/src/resolvers/index.js:202-206 | An acceptable patch applied to a valid record gives a valid record. |
| EmployeeSchema.UpdateRejects | backend/src/resolvers/index.js:202-206 | A patch that is not acceptable makes the validators reject the result. |
| EmployeeSchema.UpdateValidity | backend/src/resolvers/index.js:202-206 | With `runValidators`, the update of a valid record passes exactly when the patch is acceptable. |
| EmployeeSchema.NormalizeEmailIdempotent | backend/src/models/Employee.js:25-31 | Applying the email setters twice is the same as applying them once. |
| EmployeeSchema.TrimEachIdempotent | backend/src/models/Employee.js:46-49 | Applying the subjects setter twice is the same as applying it once. |
| EmployeeSchema.ApplyUpdateIdempotent | backend/src/resolvers/index.js:202-206 | Applying the same update twice is the same as applying it once. |
| EmployeeSchema.EchoUpdateIsNoOp | backend/src/resolvers/index.js:197-206 | An update that supplies every field with the record's own values leaves a record the setters have normalised unchanged. |
| Auth.RequireAuth | backend/src/middleware/auth.js:18-23 | Fails with "Authentication required" exactly when there is no user, and otherwise returns the user unchanged. |
| Auth.RequireAdmin | backend/src/middleware/auth.js:25-31 | No user fails authentication. A user whose role is not `admin` fails with "Admin access required". An admin is returned unchanged. |
| Auth.AdminImpliesAuthenticated | backend/src/middleware/auth.js:25-27 | Whatever passes the admin guard passes the authentication guard with the same result. |
| Auth.ExtractToken | backend/src/middleware/auth.js:5 | There is a token exactly when there is a header. The token is the header with its first `Bearer ` removed, wherever it occurs. A header without `Bearer ` is the token itself, and a header starting with `Bearer ` yields the rest of it. |
| Auth.BearerHeaderYieldsToken | backend/src/middleware/auth.js:5 | The header `Bearer <token>` yields `<token>`. |
| Auth.GetUser | backend/src/middleware/auth.js:4-16 | The caller is known exactly when there is a non-empty token, the verifier accepts it, and the lookup finds the user. The result is that user. |
| Auth.NoTokenIsAnonymous | backend/src/middleware/auth.js:5-7 | A missing header and the bare `Bearer ` both leave the caller anonymous. |
| Auth.RejectedTokenIsAnonymous | backend/src/middleware/auth.js:9-15 | When the verifier rejects every token, any header gives the same result as no header, and the authentication guard fails. |
| Auth.InactiveUserStillAuthenticated | backend/src/middleware/auth.js:9-12 | A deactivated account with a verifying token is still authenticated, because `isActive` is not consulted. |
| QueryBuilder.AgeRange | backend/src/resolvers/index.js:16-20 | The age range has `$gte` exactly for a truthy minimum and `$lte` exactly for a truthy maximum. It admits exactly the ages within the truthy bounds. |
| QueryBuilder.SalaryRange | backend/src/resolvers/index.js:21-25 | The salary range is built the same way as the age range. |
| QueryBuilder.BuildQuery | backend/src/resolvers/index.js:12-31 | The built query document matches a record exactly when the filter selects it. Department and position values are compared after the schema's `trim`, as the store casts them. |
| QueryBuilder.DocumentSelects | backend/src/resolvers/index.js:12-31 | Any query document built by the resolver's rules, field by field, selects exactly what the filter selects. |
| QueryBuilder.ZeroMinimumIsIgnored | backend/src/resolvers/index.js:16-25 | A minimum age or salary of 0 selects exactly what no minimum selects. |
| QueryBuilder.ActiveScope | backend/src/resolvers/index.js:12-31 | Without `isActive`, only active records are listed. With `isActive: false`, only soft-deleted records are listed. |
| QueryBuilder.PaddedDepartmentSelectsAlike | backend/src/resolvers/index.js:14 | Padding around a department filter does not change which records are listed, whatever the other criteria. |
| QueryBuilder.PaddedPositionSelectsAlike | backend/src/resolvers/index.js:15 | Padding around a position filter does not change which records are listed, whatever the other criteria. |
| QueryBuilder.PaddedFilterSelectsAlike | backend/src/resolvers/index.js:14-15 | Padding around both a department and a position filter does not change which records are listed. |
| QueryBuilder.SortQueryFor | backend/src/resolvers/index.js:34-37 | Without `sort`, the order is `createdAt` descending. Otherwise it is the given field, ascending exactly for `ASC`, with direction 1 or -1. |
| QueryBuilder.EnumerationLength | backend/src/resolvers/index.js:41-48 | A result listing each match once has as many entries as there are matches. |
| QueryBuilder.Skip | backend/src/resolvers/index.js:40 | The pages before `page` are skipped whole: the skip is a multiple of `limit`, and it covers exactly `page - 1` pages. |
| QueryBuilder.TotalPages | backend/src/resolvers/index.js:42 | `Math.ceil(totalCount / limit)` is the least page count whose pages hold every match. |
| QueryBuilder.Paginate | backend/src/resolvers/index.js:52-58 | The envelope carries the count and the page, and its page count is the ceiling. |
| QueryBuilder.Window | backend/src/resolvers/index.js:45-48 | `.skip(n).limit(k)` returns the slice starting at `n`, at most `k` long, and as long as the remaining matches allow. |
| QueryBuilder.WindowWithin | backend/src/resolvers/index.js:45-48 | A page holds nothing but matches. |
| QueryBuilder.HasNextPageIffMoreRemain | backend/src/resolvers/index.js:40-54 | `page < totalPages` holds exactly when matches remain after this page. |
| QueryBuilder.PagePastEndIsEmpty | backend/src/resolvers/index.js:40-54 | A page past the last one is empty and has no next page. |
| QueryBuilder.PageWithinRangeIsNotEmpty | backend/src/resolvers/index.js:40-48 | Every page from the first to the last holds at least one match. |
| QueryBuilder.MatchOnItsPage | backend/src/resolvers/index.js:40-48 | The match at position `k` appears on page `k / limit + 1`, at position `k % limit`. |
| Resolvers.SoftDeleted | backend/src/resolvers/index.js:229 | Soft-deleting a record clears its active flag and changes nothing else in the store. |
| Resolvers.Deactivated | backend/src/resolvers/index.js:240-243 | The bulk soft delete keeps every record in the store. |
| Resolvers.Listed | backend/src/resolvers/index.js:241 | `$in: ids` takes exactly the listed ids. |
| Resolvers.ModifyRights | backend/src/resolvers/index.js:193 | Whoever passes `requireAdmin` may modify every record, and anyone else exactly the records they created. |
| Resolvers.SelectedIds | backend/src/resolvers/index.js:41 | The ids of exactly the stored documents the filter selects. |
| Resolvers.SelectedCountsDocuments | backend/src/resolvers/index.js:41 | In a well-formed store, the selected records are as many as the selected documents that `countDocuments` counts. |
| Resolvers.EmployeeService.Employees | backend/src/resolvers/index.js:9-63 | The count is the number of stored documents the filter selects. The page is the window of the ordered matches. `hasPreviousPage` holds exactly when the page is above 1, and `hasNextPage` exactly when matches remain after this page. The page is empty exactly when it is past the last page. |
| Resolvers.EmployeeService.FindEmployee | backend/src/resolvers/index.js:65-75 | Returns the record with the id, active or not, or "Employee not found". |
| Resolvers.EmployeeService.CreateEmployee | backend/src/resolvers/index.js:161-181 | No user fails authentication. An email already held after normalisation is a duplicate. An unacceptable input is a validation failure. Otherwise the document built with defaults and owned by the caller is stored under a fresh id. Failures change nothing, and the store invariant is kept. |
| Resolvers.EmployeeService.Save | backend/src/resolvers/index.js:176 | A valid document with an unused email is stored under the next id, and the invariant is kept. |
| Resolvers.EmployeeService.Replace | backend/src/resolvers/index.js:202-206 | A valid document whose email no other record holds replaces the record, and the invariant is kept. |
| Resolvers.EmployeeService.UpdateEmployee | backend/src/resolvers/index.js:183-212 | The checks run in the source's order: authentication, "Employee not found", owner-or-admin, validators, then the unique email. Success stores and returns the updated record. Failures change nothing, and the invariant is kept. |
| Resolvers.EmployeeService.DeleteEmployee | backend/src/resolvers/index.js:214-234 | Authentication, then "Employee not found", then owner-or-admin. Success returns true and clears only that record's active flag. |
| Resolvers.EmployeeService.DeleteMultipleEmployees | backend/src/resolvers/index.js:236-248 | Admin only. It deactivates the listed records and returns `modifiedCount`: the number of listed ids that name a stored record, active or not, because the timestamp changes every matched record. |
| Resolvers.InsertKeepsStored | backend/src/models/Employee.js:28 | Inserting a valid record under the next id with an unused email keeps emails unique. |
| Resolvers.ReplaceKeepsStored | backend/src/models/Employee.js:28 | Replacing a record with one whose email no other record holds keeps emails unique. |
| Resolvers.SoftDeleteKeepsStored | backend/src/resolvers/index.js:229 | A soft delete keeps the store invariant. |
| Resolvers.DeactivateKeepsStored | backend/src/resolvers/index.js:240-243 | A bulk soft delete keeps the store invariant. |
| Resolvers.SoftDeleteIdempotent | backend/src/resolvers/index.js:229 | Soft-deleting again leaves the store unchanged. |
| Resolvers.SoftDeleteKeepsOwnership | backend/src/resolvers/index.js:218-226 | The record is still found after a soft delete, and whoever could modify it still can, so a second delete succeeds. |
| Resolvers.SoftDeleteIsBulkOfOne | backend/src/resolvers/index.js:229-243 | The single soft delete equals the bulk one on that id. |
| Resolvers.DeactivatedRecords | backend/src/resolvers/index.js:240-243 | Exactly the listed stored records lose their active flag. The active ids afterwards are the previous ones minus the listed ones. |
| Resolvers.UnknownIdsIgnored | backend/src/resolvers/index.js:240-243 | Ids that name no record change nothing. |
| Resolvers.BulkCountIsActiveDrop | backend/src/resolvers/index.js:240-243 | The number of active records drops by exactly the listed records that were active. |
| Resolvers.BulkCountBoundsActiveDrop | backend/src/resolvers/index.js:240-244 | The returned count is never below the drop in active records. It equals the drop exactly when every listed stored record was still active. |
| Resolvers.BulkDeleteRepeatable | backend/src/resolvers/index.js:240-244 | After a bulk delete, no listed record is active. Repeating it changes nothing more and reports the same count again. |
| Resolvers.FindActiveByEmail | backend/src/resolvers/index.js:140 | Returns an active account with that email, or none when no such account exists. |
| Resolvers.FindsTheAccount | backend/src/resolvers/index.js:140 | With unique emails, the lookup finds the one active account with that email. |
| Resolvers.Login | backend/src/resolvers/index.js:138-158 | A success returns an active account with that email whose password matches, with a token signed for its id. Every failure is "Invalid credentials", and an unknown email fails. |
| Resolvers.LoginFailsAlike | backend/src/resolvers/index.js:140-148 | An unknown email, an inactive account and a wrong password all fail alike. With the active account, login succeeds exactly when the password matches. |
| Resolvers.RoleOnWire | backend/src/resolvers/index.js:260 | The role on the wire is upper case and as long as the stored role. |
| Resolvers.StoredRole | backend/src/resolvers/index.js:123 | The stored role is lower case and as long as the role on the wire. |
| Resolvers.RoleRoundTrip | backend/src/resolvers/index.js:260 | A role registered from an upper-case enum value is sent back as the same value. |
| Resolvers.RegisteredAdminPassesGuard | backend/src/resolvers/index.js:123 | An account registered as `ADMIN` passes `requireAdmin`. |
| Resolvers.JoinDateRoundTrip | backend/src/resolvers/index.js:253 | A join date that names a real day, `YYYY-MM-DD`, goes out on the wire as it came in. |
| Resolvers.LeapDayExamples | backend/src/resolvers/index.js:172 | The 29th of February is a date in 2024 and not in 2023. |
| Resolvers.ImpossibleDateExamples | backend/src/resolvers/index.js:172 | `2024-02-30`, `2024-13-01` and `2024-04-31` are not dates. |
| Resolvers.DeleteTwice | backend/src/resolvers/index.js:214-234 | Deleting the same record twice succeeds both times and leaves it inactive. |
| Resolvers.CreateTwice | backend/src/resolvers/index.js:165-168 | After a successful create, a second create whose email normalises to the same address fails as a duplicate. |
| Form.SetField | frontend/src/components/EmployeeForm.jsx:72-75 | `{ ...prev, [name]: value }` sets that field and keeps every other field. |
| Form.EmailShapeNotBlank | frontend/src/components/EmployeeForm.jsx:94-98 | A text matching the email pattern is not blank, so the "required" check comes first and the two messages are exclusive. |
| Form.EmailShapeAnywhere | frontend/src/components/EmployeeForm.jsx:96 | The pattern is unanchored: text around a match still matches. |
| Form.EmailShapeExamples | frontend/src/components/EmployeeForm.jsx:96 | `a@b.c` and text around it match. `a@b` and `@b.c` do not. |
| Form.NonEmpty | frontend/src/components/EmployeeForm.jsx:127 | `.filter(s => s)` keeps exactly the non-empty entries. |
| Form.NonEmptySnoc | frontend/src/components/EmployeeForm.jsx:127 | A non-empty last entry is kept at the end and an empty one is dropped. With `Form.NonEmptyCons`, this fixes the order and the multiplicity of the kept entries. |
| Form.CleanPiecesWellFormed | frontend/src/components/EmployeeForm.jsx:127 | Every parsed subject is non-empty, trimmed and free of commas. |
| Form.ParseSubjects | frontend/src/components/EmployeeForm.jsx:127 | The parsed subjects are well formed. |
| Form.ParseSubjectsExactly | frontend/src/components/EmployeeForm.jsx:127 | The submitted subjects are exactly the non-empty trimmed pieces of the text between commas. |
| Form.NonEmptyCons | frontend/src/components/EmployeeForm.jsx:127 | The filter drops an empty head and keeps a non-empty one. |
| Form.TrimEachPointwise | frontend/src/components/EmployeeForm.jsx:127 | Lists whose entries trim alike give the same trimmed list. |
| Form.ParseSubjectsGuardRedundant | frontend/src/components/EmployeeForm.jsx:127 | The empty-text guard changes nothing: the pipeline alone gives `[]` on empty text. |
| Form.CleanPiecesSpaceInFront | frontend/src/components/EmployeeForm.jsx:127 | A space in front of the text does not change the parsed subjects. |
| Form.CleanPiecesSingle | frontend/src/components/EmployeeForm.jsx:127 | A single well-formed entry parses to itself. |
| Form.CleanPiecesCons | frontend/src/components/EmployeeForm.jsx:127 | An entry and a comma come off as one subject in front of the rest. |
| Form.CleanPiecesEntry | frontend/src/components/EmployeeForm.jsx:127 | An entry and `", "` come off as one subject in front of the rest. |
| Form.CleanPiecesOfJoin | frontend/src/components/EmployeeForm.jsx:127 | The parsed pieces of a well-formed list joined with `", "` are the list. |
| Form.SubjectsRoundTrip | frontend/src/components/EmployeeForm.jsx:127 | Joining well-formed subjects for the edit form and parsing them on submit gives them back. |
| Form.ParseSubjectsIdempotent | frontend/src/components/EmployeeForm.jsx:127 | Parsed subjects are a normal form: joining and parsing them again changes nothing. |
| Form.CommaEntrySplits | frontend/src/components/EmployeeForm.jsx:127 | A stored subject containing a comma comes back from the edit form as two subjects. |
| Form.EmptyEntryDropped | frontend/src/components/EmployeeForm.jsx:127 | An empty stored subject is dropped by the edit form. |
| Form.InputIsNormalized | frontend/src/components/EmployeeForm.jsx:118-130 | The built input has trimmed texts, a trimmed lower-case email equal to the schema's normalisation, and well-formed subjects. Attendance is 0 when left empty. Subjects, attendance and a trimmed bio are always sent, and the join date is sent as typed. |
| Form.AsUpdate | frontend/src/components/EmployeeForm.jsx:133-135 | In edit mode, the same input is sent as an update that supplies the fields and never `isActive`. |
| Form.FormInputMeetsSchema | frontend/src/components/EmployeeForm.jsx:85-130 | A form that passes validation sends every required text non-empty and trimmed. |
| Form.SchemaKeepsFormInput | frontend/src/components/EmployeeForm.jsx:118-130 | The schema's setters leave the texts, email and subjects exactly as the form sent them. |
| Form.InitFromEmployee | frontend/src/components/EmployeeForm.jsx:52-68 | The edit form shows the subjects joined with `", "`, and a missing bio as empty text. |
| Form.EditFormEchoesSubjects | frontend/src/components/EmployeeForm.jsx:63 | The edit form sends back a record's well-formed subjects unchanged. |
| Form.EditFormEchoesTexts | frontend/src/components/EmployeeForm.jsx:118-130 | The edit form sends back the texts, email and bio of a normalised record unchanged. |
| Form.EditFormEchoesScalars | frontend/src/components/EmployeeForm.jsx:118-130 | The edit form sends back age, salary, attendance and join date unchanged when the number conversions give back what they printed. |
| Form.UnchangedEditIsNoOp | frontend/src/components/EmployeeForm.jsx:109-140 | Opening a stored record in the edit form and submitting it unchanged leaves the record as it was. |
| Form.UnchangedEditSetsEmptyBio | frontend/src/components/EmployeeForm.jsx:129 | A record without a bio gets an empty bio from an unchanged edit. |
| Form.ErrorsAfterExplained | frontend/src/components/EmployeeForm.jsx:85-103 | After any prefix of the checks, the errors name exactly the failing fields checked so far, each with its message. |
| Form.ValidationErrors | frontend/src/components/EmployeeForm.jsx:85-105 | After full validation, the errors name exactly the failing fields among the eight checked ones, each with its message. |
| Form.PassesIffNoCheckFails | frontend/src/components/EmployeeForm.jsx:85-103 | A form passes exactly when none of the checked fields fails. |
| Form.NoErrorsIffPasses | frontend/src/components/EmployeeForm.jsx:105-106 | Validation records no error exactly when the form passes. |
| Form.IsBlank | frontend/src/components/EmployeeForm.jsx:88 | `!value.trim()` holds exactly when the text is all white space. |
| Form.Verdict | frontend/src/components/EmployeeForm.jsx:88-103 | The test made on a field fails exactly when the field fails validation. |
| Form.Check | frontend/src/components/EmployeeForm.jsx:88-103 | One check extends the errors of the earlier checks by that field's message when it fails. |
| Form.CheckFields | frontend/src/components/EmployeeForm.jsx:86-103 | The checks, in the source's order, record the errors of a full validation. |
| Form.EmployeeForm.constructor | frontend/src/components/EmployeeForm.jsx:8-24 | A new form is empty. An edit form is filled from the record and remembers its id. There are no errors and it is not loading. |
| Form.EmployeeForm.HandleChange | frontend/src/components/EmployeeForm.jsx:70-83 | The typed text is stored in its field. That field's error is blanked if one is recorded, every other error stays, and loading is unchanged. |
| Form.EmployeeForm.ValidateForm | frontend/src/components/EmployeeForm.jsx:85-107 | The errors are replaced by those of a full validation. The result is true exactly when there is none, which is exactly when the form passes. |
| Form.EmployeeForm.HandleSubmit | frontend/src/components/EmployeeForm.jsx:109-140 | Nothing is sent exactly when validation fails. The errors then are those of the full validation, and loading is unchanged. Otherwise loading is set, the errors are cleared, and the built input goes to `createEmployee`, or to `updateEmployee` with the record's id in edit mode. |

## Left out

- Calls into code outside this model are parameters of the members that use them:
  - JWT verification and signing, bcrypt password comparison, and the user lookup by id.
  - The store's `$text` search and its ordering of results.
  - The client's floating-point number parsing and printing.
- `employeeStats` is left out. It is an aggregation pipeline (`$group`, `$avg`) over floating-point values.
- `me` is left out: it only returns `requireAuth(user)`, which `Auth.RequireAuth` models.
- `register` is modelled only in its role conversion (`Resolvers.StoredRole`). The account store, password hashing and the duplicate-user lookup are not modelled.
- The `createdAt` and `updatedAt` timestamps are not stored, and their field resolvers are not modelled. The default sort names `createdAt` but leaves the ordering to `arrange`. What the timestamps change in the bulk delete's count is modelled: `updatedAt` changes on every matched record, so `modifiedCount` counts all of them.
- Concurrency is left out. Every resolver runs to completion before the next begins, so two concurrent creates with one email cannot race past the duplicate check.
- The error messages are reduced to the `ApiError` kind. The `"Failed to ...: "` wrapping is not modelled.
- A write the store fails for other reasons is not modelled.
- The joinDate is modelled as the calendar-date text it is created with. `new Date(...)` parsing and invalid dates are not modelled, and the validator is modelled as "non-empty".
- `toLowerCase` and `toUpperCase` are modelled on ASCII letters only. Unicode case mapping is not modelled. `trim` uses JavaScript's full white-space set.
- The form's number fields are modelled through `Form.Numbers`. NaN after validation and integer truncation by `parseInt` are behind those parameters.
- The form's `submit` error set by the mutations' `onError` is not modelled. Nor are `loading` being reset after a failed request and the `onCompleted` callbacks. `HandleSubmit` ends when the request is sent.
- The duplicate check in `createEmployee` compares the normalised email. The schema applies its `lowercase` and `trim` setters to the equality query as well as to the document.
- A range object with neither bound (`{}`) cannot be built, because of the guards on lines 16 and 21. The model reads it as matching no number.
- Resolvers.EmployeeService.Employees: requires `page >= 1` and `limit >= 1`; the resolver does not check them. The resolver defaults them to 1 and 10 when they are omitted. A page below 1 gives a negative `skip`, which the store rejects. A limit of 0 makes `totalCount / limit` Infinity or NaN, which the GraphQL `Int` type of `totalPages` cannot serialise, while `.limit(0)` itself means no limit. A negative limit passes through: the store uses its absolute value while `totalPages` comes out negative. The model does not follow these cases.
- QueryBuilder.Skip: requires `page >= 1` and `limit >= 1`, for the same reason.
- Form.UnchangedEditIsNoOp: requires the record to have a bio and well-formed subjects. `Form.UnchangedEditSetsEmptyBio` and `Form.CommaEntrySplits` show what happens otherwise.
- EmployeeSchema.ApplyUpdate: an explicit `null` in an update is treated as an absent field. In the service, `{ name: null }` fails the `required` validator and `{ bio: null }` clears the bio. Here the update types have one "absent" value only.
- EmployeeSchema.WithDefaults: an explicit `null` in the create input is treated as an absent field. In the service, `attendance: null` or `subjects: null` is stored as null, because the schema's defaults apply only to a missing path and `min`/`max` skip null. Here they get the defaults 0 and the empty list.
- Resolvers.FindActiveByEmail: compares the email exactly as given. The user schema (`backend/src/models/User.js`) is not part of this model. If it declares `lowercase` or `trim` on `email`, the store normalises the query value as well, and an email in other letter case or with padding finds the account that the model reports as unknown. `Resolvers.FindsTheAccount` and `Resolvers.LoginFailsAlike` rest on the same exact match.
- QueryBuilder.BuildQuery: an explicit `isActive: null` in the filter is treated as absent, so the active records are listed. In the service, the query then asks for `isActive: null` and lists nothing.
- Resolvers.JoinDateRoundTrip: holds for dates naming a real day. Node's `new Date` rolls a day past the month's end over into the next month (`2024-02-30` is stored as 1 March), and the model does not compute that rollover. The join date is kept as text, and `Resolvers.IsCalendarDate` says which texts name a day.
