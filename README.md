# Employees: a verified model of the record store, the auth decisions and the page logic

This project models the core of the Employees application: an Express and
Mongoose backend for an employee registry, and its React frontend. It is
written in Dafny and proves properties of the model. It covers the following:

- **The employee store** (`Backend/controllers/employeeController.js` and
  `Backend/models/Employee.js`).
  - Each handler is a function from the store before the request to an
    `Outcome`: a status, a response body, and the store after it. These are
    `CreateOutcome`, `UpdateOutcome`, `GetByIdOutcome`, `DeleteOutcome` and
    `ToggleOutcome`. `UpdateOutcomeFixed` is update with the defect under
    "Findings" corrected.
  - The store is the collection of documents plus the set of files in
    `uploads/`.
  - The class `EmployeeController.EmployeeStore` runs each handler step by
    step on its two fields. Each method is proved to produce exactly the
    function's outcome and to keep the store's invariant. For update this is
    the corrected outcome, and its status, response and documents are
    proved equal to those of the code as written. The invariant says
    the documents are valid, trimmed and lower-cased, unique on `id` and
    `email`, and that each holds its own image file.
  - `save()` is the function `EmployeeModel.Save`. It runs the pre-save hook
    that numbers new documents (the largest id plus one, or 1; see `Serial`),
    every schema validator, and the two unique indexes.
  - The e-mail pattern `/^\w+([.-]?\w+)*@\w+([.-]?\w+)*(\.\w{2,3})+$/` is a
    hand-written recognizer, `EmailFormat.ValidEmail`. It is proved to accept
    exactly the strings the pattern, read as a grammar, matches.
  - `getAllEmployees` is the pure function `EmployeeQuery.List`: a
    case-insensitive filter on name or e-mail, the table of sort keys, and
    skip/limit paging.
- **Authentication.**
  - `login` and `register` (`Backend/controllers/authController.js`) are
    modelled over a user collection (`Backend/models/User.js`). Its pre-save
    hooks number users and hash passwords.
  - The `verifyToken` middleware (`Backend/middleware/authMiddleware.js`) is
    modelled as a decision followed by a state change on the request.
  - The foreign libraries are function-typed parameters that stay
    uninterpreted: `hash` for bcrypt's hash, `matches` for bcrypt's compare,
    `sign` and `verify` for the JWT library.
- **The frontend's state logic.**
  - The list page (`auth_emp_frontend/src/pages/EmployeeList.jsx`) has the
    sort-header toggle, the sort indicator, the clamped Previous and Next
    buttons, and the local list updates after a delete or a toggle. It is the
    class `EmployeeListPage.ListPage`.
  - The create page (`auth_emp_frontend/src/pages/CreateEmployee.jsx`) has its
    field, checkbox and image handlers, `validateForm`, and the multipart body
    of the submit. It is the class `CreateEmployeePage.CreatePage`.
  - Lemmas relate both pages to the backend. The page's local list updates
    agree with what the server did. The options offered are values the schema
    accepts. Every form the server would accept passes the client's checks,
    and the converse fails.

`""` stands for an absent or falsy request field. Absent results of lookups
(`findOne` finding nothing, a missing file) are `Optional.Option`. Strings
are sequences of Dafny `char`s, which are Unicode scalar values. JavaScript
strings are UTF-16 code units instead, so a character outside the Basic
Multilingual Plane counts once here and twice there.

Two places where the code does less than one would expect; the model
follows the code:

- One would expect any failure after the image was stored to delete it. The
  code deletes the uploaded file only in the `catch` blocks. The early `400`
  and `404` returns of create and update leave it in `uploads/`
  (`CreateRejects` and `UpdateRejects` state this).
- One would expect an out-of-range designation, gender or course to be a
  validation error of the controller. The controller does not check these fields. The schema
  refuses them inside `save()`, and the `catch` block answers `500`
  (`CreateServerErrorWhen`).

## Model

| member | source | states |
|---|---|---|
| Serial.Max | Backend/models/Employee.js:65 | The largest key is above or equal to every key, and is one of them unless there are none. |
| Serial.Next | Backend/models/Employee.js:65-66 | The number for a new document is at least 1 and above every existing key. It is 1 for an empty collection, and otherwise one more than an existing key. |
| Serial.Assign | Backend/models/Employee.js:64-67 | The hook keeps a non-zero number. It replaces a falsy one by a number no document has, which is 1 for an empty collection and otherwise one more than an existing key. |
| Serial.NextIsLeastFresh | Backend/models/Employee.js:65-66 | The new number is the least number above every key, i.e. the maximum plus one. |
| Text.LowerChar | Backend/models/Employee.js:22 | The `lowercase` setter on one character leaves no upper-case letter, changes only upper-case letters, and keeps word characters and white space in their classes. |
| Text.LowerIdempotent | Backend/models/Employee.js:22 | Lower-casing twice is lower-casing once. |
| Text.Trim | Backend/models/Employee.js:15 | `trim` never lengthens a string. Its result neither starts nor ends with white space. It is empty exactly when the input is all white space, and a string without white space is unchanged. |
| Text.TrimIdempotent | Backend/models/Employee.js:15 | Trimming twice is trimming once. |
| Text.Split | Backend/controllers/employeeController.js:114 | `split(',')` gives at least one piece. No piece holds the separator, and joining the pieces gives the string back. |
| Text.SplitJoin | Backend/controllers/employeeController.js:114 | Splitting the join of separator-free pieces gives the pieces back: `split` inverts `join`. |
| Text.SplitNoSeparator | Backend/controllers/employeeController.js:114 | A string without the separator splits into itself alone. |
| Text.ContainsIff | Backend/controllers/employeeController.js:22-23 | The substring search succeeds exactly when the needle occurs at some position of the text. |
| Text.StrLeTotal | Backend/controllers/employeeController.js:33 | The string order of the name and email sorts is total. |
| Text.StrLeTransitive | Backend/controllers/employeeController.js:33 | The string order is transitive. |
| Text.StrLeAntisymmetric | Backend/controllers/employeeController.js:33 | The string order is antisymmetric: two strings each at most the other are equal. |
| EmailFormat.ValidEmailMatchesRegex | Backend/models/Employee.js:23 | The recognizer accepts a string exactly when the anchored pattern matches it: a segmented local part, `@`, a segmented host, then one or more groups of `.` and 2 or 3 word characters. |
| EmailFormat.ValidEmailIsRegexMatch | Backend/models/Employee.js:23 | Every accepted address matches the pattern. |
| EmailFormat.RegexMatchIsValidEmail | Backend/models/Employee.js:23 | Every string the pattern matches is accepted. |
| EmailFormat.LastGroup | Backend/models/Employee.js:23 | In a segmented name followed by the top-level groups, the last `.` has 2 or 3 word characters after it and a segmented name before it. |
| EmailFormat.ValidEmailIsShape | Backend/models/Employee.js:23 | An address is accepted exactly when it has the shape: one `@`, a segmented local part and host, and a final `.` with 2 or 3 word characters. |
| EmailFormat.EmailParts | Backend/models/Employee.js:23 | An accepted address has that shape, and its `@` is the only one in it. |
| EmailFormat.EmailFromShape | Backend/models/Employee.js:23 | Every string of that shape is accepted. |
| EmailFormat.ValidEmailHasNoSpace | Backend/models/Employee.js:21-23 | An accepted address contains no white space, so `trim` leaves it unchanged. |
| EmailFormat.ValidEmailLower | Backend/models/Employee.js:22-23 | The lower-case form of an accepted address is accepted too. |
| EmployeeModel.IndexOfId | Backend/controllers/employeeController.js:155 | `findOne({id})` finds nothing exactly when no document has the id. Otherwise it finds the first document with it. |
| EmployeeModel.SchemaValid | Backend/models/Employee.js:3-60 | The schema's validators as a predicate: required fields, the trimmed non-empty name, the e-mail and mobile patterns, and the three enums. Its properties are `Save`, `SaveKeepsStoreOk` and `NewDocumentValid`. |
| EmployeeModel.PreSave | Backend/models/Employee.js:63-69 | The pre-save hook as a function. Its properties are `SaveNew`, `SaveExisting` and `NewIdNeverClashes`, with `Serial.Assign`. |
| EmployeeModel.Save | Backend/models/Employee.js:3-69 | A successful save leaves a document that passes every schema validator. It appends or replaces exactly one position and leaves every other document as it was. |
| EmployeeModel.SaveExisting | Backend/models/Employee.js:64 | A document that has an id keeps it when saved. The save succeeds exactly when the validators and both unique indexes accept it, and then replaces exactly that document. |
| EmployeeModel.SaveNew | Backend/models/Employee.js:63-69 | A document saved without an id gets the largest id plus one (or 1), which is fresh. It is appended exactly when the validators and the indexes accept it. |
| EmployeeModel.NewIdNeverClashes | Backend/models/Employee.js:4-7 | The numbered id of a new document never clashes, so only the `email` index can refuse it. |
| EmployeeModel.SaveKeepsStoreOk | Backend/models/Employee.js:3-69 | Saving a trimmed, lower-cased document keeps the collection valid, normalized and unique on `id` and `email`. |
| EmployeeModel.SetEmailValid | Backend/models/Employee.js:17-23 | Through the `trim` and `lowercase` setters, an address the controller accepted becomes its lower-case form. That form still matches the pattern and is already lower case. |
| EmployeeModel.SetNameTrimmed | Backend/models/Employee.js:12-16 | The name the `trim` setter stores is trimmed. |
| EmployeeModel.StoreOkReplace | Backend/controllers/employeeController.js:229 | Replacing a document by a stored one that clashes with no other keeps the invariant. |
| EmployeeModel.StoreOkRemove | Backend/controllers/employeeController.js:263 | Removing a document keeps the invariant. |
| EmployeeQuery.KeyOf | Backend/controllers/employeeController.js:31-58 | Each order has a key in the switch's table, spelled as the field name with `_desc` when descending. |
| EmployeeQuery.SortFor | Backend/controllers/employeeController.js:29-61 | The switch on the sort key as a function. Its properties are `SortForTable` and `SortForKeyOf`. |
| EmployeeQuery.SortForTable | Backend/controllers/employeeController.js:29-61 | Each of the eight keys selects the field and direction it spells. Every other key, and an absent one, selects `createDate` descending. |
| EmployeeQuery.SortForKeyOf | Backend/controllers/employeeController.js:31-55 | Each order has exactly one key: the switch undoes the spelling. |
| EmployeeQuery.KeyLeTotal | Backend/controllers/employeeController.js:67 | Any two records compare under every order. |
| EmployeeQuery.KeyLeTransitive | Backend/controllers/employeeController.js:67 | The order of every sort key is transitive. |
| EmployeeQuery.InsertSorted | Backend/controllers/employeeController.js:67 | Inserting a record into a sorted sequence keeps it sorted. |
| EmployeeQuery.Insert | Backend/controllers/employeeController.js:67 | Insertion adds exactly that record: the result is a permutation of the input plus it. |
| EmployeeQuery.SortBy | Backend/controllers/employeeController.js:66-67 | `sort(sortOptions)` returns a permutation of the matches that is sorted by the requested order. |
| EmployeeQuery.Filter | Backend/controllers/employeeController.js:19-26 | A record is in `find(query)` exactly when it is in the collection and matches, and the result is no longer than the collection. How often each record appears is stated by `FilterCounts`. |
| EmployeeQuery.FilterEmptySearch | Backend/controllers/employeeController.js:19 | With no search text every document matches, in collection order. |
| EmployeeQuery.FilterCounts | Backend/controllers/employeeController.js:19-26 | `find(query)` holds each matching record as many times as the collection does, and no other record. So the count of `List` is the number of matching documents, which `countDocuments(query)` at line 71 counts. |
| EmployeeQuery.MatchesIff | Backend/controllers/employeeController.js:19-25 | A record matches exactly when there is no search text, or the lower-cased text occurs at some position of the lower-cased name or e-mail. |
| EmployeeQuery.Matches | Backend/controllers/employeeController.js:19-26 | The `$or` condition as a predicate. Its properties are `MatchesIff`, `FilterEmptySearch` and `FilterCounts`. |
| EmployeeQuery.CeilDiv | Backend/controllers/employeeController.js:75 | `Math.ceil(total / limit)` is the least number of pages of `limit` that hold `total`. |
| EmployeeQuery.Window | Backend/controllers/employeeController.js:68-69 | `skip(n).limit(m)` holds at most `m` elements, exactly the ones from position `n` on, as many as remain up to `m`. |
| EmployeeQuery.List | Backend/controllers/employeeController.js:63-78 | The page holds at most `limit` matching records of the collection, sorted by the requested key. `totalCount` is the number of matches, `totalPages` is its ceiling quotient by `limit`, and `currentPage` is `page`. |
| EmployeeQuery.ListIsListing | Backend/controllers/employeeController.js:63-78 | The response is the requested page of some sorted ordering of exactly the matching records, however the database breaks ties. |
| EmployeeQuery.ListPage | Backend/controllers/employeeController.js:64-69 | The page is the window at `(page - 1) * limit` of the sorted matches. |
| EmployeeQuery.PagesCover | Backend/controllers/employeeController.js:64-75 | Pages `1..totalPages` laid end to end hold every match exactly once, in order. |
| EmployeeQuery.ConcatPrefix | Backend/controllers/employeeController.js:64-69 | The first `n` pages laid end to end are the first `n * limit` matches. |
| EmployeeController.FileKey | Backend/controllers/employeeController.js:133 | The stored image path has no `\`, and a path without one is kept as it is. |
| EmployeeController.FileKeyIdempotent | Backend/controllers/employeeController.js:133 | Normalizing a normalized path changes nothing. |
| EmployeeController.CourseArray | Backend/controllers/employeeController.js:114 | An array of courses is kept as given. A string becomes comma-free pieces (at least one) whose join by `,` is the string. |
| EmployeeController.FormError | Backend/controllers/employeeController.js:90-106 | The three field checks shared by create and update, as a function. Its properties are `CreateErrorOrder`, `CreateRejects` and `UpdateInvalid`. |
| EmployeeController.CreateOutcome | Backend/controllers/employeeController.js:86-149 | The create handler as a function. Its properties are `CreateRejects`, `CreateErrorOrder`, `CreateSucceeds`, `CreateServerErrorWhen`, `CreateServerError` and `CreateKeeps`. `EmployeeStore.Create` is proved equal to it. |
| EmployeeController.UpdateOutcome | Backend/controllers/employeeController.js:169-244 | The update handler as written, as a function. Its properties are `UpdateRejects`, `UpdateConflict`, `UpdateInvalid`, `UpdateMissing`, `UpdateNotFound`, `UpdateSucceeds`, `UpdateServerError`, `UpdateKeeps` and `UpdateCanLoseImage`. |
| EmployeeController.UpdateOutcomeFixed | Backend/controllers/employeeController.js:169-244 | The update handler with the old image unlinked only after a successful save. Its properties are `UpdateFixedAgrees`, `UpdateFixedKeepsImages` and `FixedKeeps`. `EmployeeStore.Update` is proved equal to it. |
| EmployeeController.GetByIdOutcome | Backend/controllers/employeeController.js:153-165 | The lookup handler as a function. Its property is `GetByIdFinds`. |
| EmployeeController.DeleteOutcome | Backend/controllers/employeeController.js:248-269 | The delete handler as a function. Its properties are `DeleteRemoves`, `DeleteKeepsOthers` and `DeleteKeepsInvariant`. |
| EmployeeController.ToggleOutcome | Backend/controllers/employeeController.js:273-291 | The toggle handler as a function. Its properties are `ToggleNotFound`, `ToggleFlips`, `ToggleKeepsInvariant` and `ToggleTwice`. |
| EmployeeController.CreateRejects | Backend/controllers/employeeController.js:90-119 | Create answers 400 exactly when a field is missing, the e-mail or mobile is ill-formed, the e-mail is taken, or there is no file. Then the store is unchanged, including the uploaded file. |
| EmployeeController.CreateErrorOrder | Backend/controllers/employeeController.js:90-119 | The answer names the first failing check, in the order missing field, e-mail format, mobile format, e-mail taken, image. |
| EmployeeController.CreateSucceeds | Backend/controllers/employeeController.js:126-141 | A 201 appends exactly one document and leaves the files alone. The document is active, created now, and numbered after every other. Its image path is normalized, its name trimmed and its e-mail lower-cased, and its course list is kept as given or split on `,`. |
| EmployeeController.NewDocumentValid | Backend/controllers/employeeController.js:126-136 | After the controller's checks, the save succeeds exactly when the trimmed name is non-empty, the designation and gender are in their enumerations, and the course list is valid. |
| EmployeeController.CreateServerErrorWhen | Backend/controllers/employeeController.js:136-147 | Create answers 500 exactly when every controller check passes but the schema refuses the document. |
| EmployeeController.CreateServerError | Backend/controllers/employeeController.js:142-147 | On a 500 only the catch block acts: the documents are unchanged and the uploaded file is removed. |
| EmployeeController.CreateKeeps | Backend/controllers/employeeController.js:86-149 | Create keeps the documents' invariant and the image-file invariant. |
| EmployeeController.CreateKeepsStoreOk | Backend/controllers/employeeController.js:126-141 | Create keeps the documents valid, normalized and unique. |
| EmployeeController.CreateKeepsImages | Backend/controllers/employeeController.js:126-147 | Create keeps every document's image file, one file per document. |
| EmployeeController.UpdateRejects | Backend/controllers/employeeController.js:173-198 | Update answers 400 exactly when a field check fails or another document has the e-mail. This happens before the lookup, and the store is unchanged. |
| EmployeeController.UpdateConflict | Backend/controllers/employeeController.js:190-198 | An e-mail held by a document with another id is refused with the conflict message, even when no document has the id. |
| EmployeeController.UpdateInvalid | Backend/controllers/employeeController.js:173-188 | A failing field check answers 400 with that check's message and changes nothing. |
| EmployeeController.UpdateMissing | Backend/controllers/employeeController.js:203-208 | Past the checks, an unknown id answers 404 and changes nothing. |
| EmployeeController.UpdateNotFound | Backend/controllers/employeeController.js:203-208 | Update answers 404 exactly when every check passes and no document has the id, and then the store is unchanged. |
| EmployeeController.OwnEmailIsNoConflict | Backend/controllers/employeeController.js:190-194 | Re-submitting a document's own e-mail is no conflict. |
| EmployeeController.UpdateSucceeds | Backend/controllers/employeeController.js:210-234 | A 200 replaces exactly the document with the id by its edited form, and answers with that form. With a file it removes the old image file, and without one it keeps the files. |
| EmployeeController.EditedFields | Backend/controllers/employeeController.js:218-227 | The edit sets name, e-mail, mobile, designation, gender and course through the setters. It keeps id, `isActive` and `createDate`. It takes the new file's path as given, not normalized, and without a file keeps the image. |
| EmployeeController.UpdateServerError | Backend/controllers/employeeController.js:235-243 | A failed save keeps the documents. It removes the request's file and, when a file came, the already-unlinked old image. |
| EmployeeController.UpdateKeepsStoreOk | Backend/controllers/employeeController.js:210-229 | Update keeps the documents valid, normalized and unique on every path. |
| EmployeeController.UpdateKeepsImages | Backend/controllers/employeeController.js:210-229 | Unless its save fails, update keeps every document's image file. |
| EmployeeController.UpdateKeeps | Backend/controllers/employeeController.js:169-244 | Update keeps the documents' invariant always, and the image-file invariant whenever it does not answer 500. |
| EmployeeController.UpdateCanLoseImage | Backend/controllers/employeeController.js:210-243 | As written, an update with a new file whose save fails leaves the document pointing at an image file that was already removed. |
| EmployeeController.UpdateFixedAgrees | Backend/controllers/employeeController.js:210-243 | Unlinking the old image only after a successful save gives the same status, response and documents as the code. |
| EmployeeController.UpdateFixedKeepsImages | Backend/controllers/employeeController.js:210-243 | With that order, update keeps every document's image file on every path. |
| EmployeeController.FixedKeeps | Backend/controllers/employeeController.js:169-244 | With that order, update keeps both invariants on every path. |
| EmployeeController.GetByIdFinds | Backend/controllers/employeeController.js:153-161 | Lookup changes nothing. It answers 404 exactly when no document has the id, and otherwise returns a stored document with that id. |
| EmployeeController.DeleteRemoves | Backend/controllers/employeeController.js:248-265 | Delete answers 404 exactly when no document has the id, changing nothing. Otherwise it removes that document and its image file and keeps the others in order. |
| EmployeeController.DeleteKeepsOthers | Backend/controllers/employeeController.js:263 | With unique ids, no document with the id is left after delete and every other document is. |
| EmployeeController.DeleteKeepsInvariant | Backend/controllers/employeeController.js:248-265 | Delete keeps both invariants. |
| EmployeeController.ToggleNotFound | Backend/controllers/employeeController.js:275-279 | Toggle answers 404 exactly when no document has the id, changing nothing. |
| EmployeeController.ToggleFlips | Backend/controllers/employeeController.js:281-287 | In a valid store, toggling an existing id never fails. It flips only that document's `isActive`, reports the new value with the activated or deactivated message, and changes nothing else. |
| EmployeeController.ToggleKeepsInvariant | Backend/controllers/employeeController.js:281-282 | Toggle keeps both invariants. |
| EmployeeController.ToggleTwice | Backend/controllers/employeeController.js:281-282 | Toggling twice restores the store. |
| EmployeeController.EmployeeStore.constructor | Backend/controllers/employeeController.js:5-9 | The store starts with no documents and an empty `uploads/`, which satisfies the invariant. |
| EmployeeController.EmployeeStore.Receive | Backend/routes/employeeRoutes.js:27-33 | The filter accepts exactly JPEG and PNG files. An accepted file is added to `uploads/` under a fresh name, the documents are untouched, and the invariant holds. |
| EmployeeController.EmployeeStore.Create | Backend/controllers/employeeController.js:86-149 | The handler's steps produce exactly the create outcome and keep the invariant. |
| EmployeeController.EmployeeStore.GetById | Backend/controllers/employeeController.js:153-165 | The lookup produces exactly the lookup outcome and changes nothing. |
| EmployeeController.EmployeeStore.Update | Backend/controllers/employeeController.js:169-244 | The handler, with the corrected unlink order, gives exactly the status, response and documents of the handler as written. It keeps the whole invariant on every path. |
| EmployeeController.EmployeeStore.UpdateSteps | Backend/controllers/employeeController.js:169-244 | The checks, the lookup, the save, then either the unlink of the replaced image or the catch block, run in that order, produce exactly the corrected update outcome. |
| EmployeeController.EmployeeStore.Delete | Backend/controllers/employeeController.js:248-269 | The handler's steps produce exactly the delete outcome and keep the invariant. |
| EmployeeController.EmployeeStore.Toggle | Backend/controllers/employeeController.js:273-291 | The handler's steps produce exactly the toggle outcome and keep the invariant. |
| UserModel.FindUser | Backend/controllers/authController.js:13 | `findOne({userName})` finds nothing exactly when no user has the name. Otherwise it finds the first user with it. |
| UserModel.SaveUser | Backend/models/User.js:3-40 | A successful save had a user name and a password. It appends or replaces exactly one user and leaves the others as they were. |
| UserModel.SaveNewUser | Backend/models/User.js:21-40 | A new user with a fresh name and `_id` is appended, numbered after every user, with the hash of its password. |
| UserModel.ResaveKeepsPassword | Backend/models/User.js:30-33 | A re-save that did not modify the password keeps the stored hash and the number: nothing is hashed twice or renumbered. |
| UserModel.SaveUserKeepsOk | Backend/models/User.js:3-17 | Saving keeps the users unique on `_id`, `sno` and `userName`, numbered, and with names. |
| AuthController.LoginOutcome | Backend/controllers/authController.js:5-41 | The login handler as a function. Its properties are `LoginMissingField`, `LoginFailureIsUniform`, `LoginSucceeds` and `RegisterThenLogin`. |
| AuthController.RegisterOutcome | Backend/controllers/authController.js:44-70 | The register handler as a function. Its properties are `RegisterRejects`, `RegisterSucceeds`, `RegisterKeepsOk` and `RegisterThenLogin`. |
| AuthController.LoginMissingField | Backend/controllers/authController.js:8-10 | A login missing a field answers 400, whatever the users are. |
| AuthController.LoginFailureIsUniform | Backend/controllers/authController.js:13-23 | An unknown name and a wrong password get the identical 401. The login succeeds exactly when the name is found and the compare accepts its hash. |
| AuthController.LoginSucceeds | Backend/controllers/authController.js:25-37 | A successful login signs exactly `{id, userName}` of the user found, for one day. It returns only those two fields of the user, never the hash. |
| AuthController.RegisterRejects | Backend/controllers/authController.js:47-57 | A missing field, or a name already taken, answers 400 with its message and leaves the users unchanged. |
| AuthController.RegisterSucceeds | Backend/controllers/authController.js:59-66 | Otherwise register appends exactly one user, numbered after every other, holding the hash of the password. It answers 201 with no token. |
| AuthController.RegisterKeepsOk | Backend/controllers/authController.js:59-66 | Register keeps the users unique, numbered and named. |
| AuthController.RegisterThenLogin | Backend/controllers/authController.js:5-70 | A user just registered logs in with the same password, when the compare accepts a password against its own hash. The token names the new user. |
| AuthController.UserStore.Register | Backend/controllers/authController.js:44-70 | The handler's steps produce exactly the register outcome and keep the users' invariant. |
| AuthController.UserStore.Login | Backend/controllers/authController.js:5-41 | The handler's steps produce exactly the login answer and change nothing. |
| AuthMiddleware.BearerToken | Backend/middleware/authMiddleware.js:10-11 | The token taken from the header holds no space. |
| AuthMiddleware.BearerTokenOf | Backend/middleware/authMiddleware.js:10-11 | The token is the field after the first space, whatever the scheme word is. |
| AuthMiddleware.Authorize | Backend/middleware/authMiddleware.js:3-19 | The middleware's decision as a function. Its properties are `AuthorizeIff`, `EmptyTokenRefused` and `LoginTokenAuthorizes`. |
| AuthMiddleware.EmptyTokenRefused | Backend/middleware/authMiddleware.js:10-18 | The header `Bearer ` hands the empty token to `verify`. When `verify` throws on it, the request is refused with 401. |
| AuthMiddleware.AuthorizeIff | Backend/middleware/authMiddleware.js:3-19 | The handler is reached exactly when the header is present and its second field verifies, with the decoded payload. A missing header answers 403 and every other refusal is the 401. |
| AuthMiddleware.LoginTokenAuthorizes | Backend/middleware/authMiddleware.js:13-16 | The token a login hands out, sent back as `Bearer <token>`, lets the request through with the login's `{id, userName}`. |
| AuthMiddleware.VerifyToken | Backend/middleware/authMiddleware.js:3-20 | The middleware either answers the request without calling `next`, or sets `req.user` to the payload and calls `next` exactly once, never both. |
| EmployeeListPage.NextSort | auth_emp_frontend/src/pages/EmployeeList.jsx:98-106 | The header toggle as a function. Its properties are `SortClick`, `HeaderKeys` and `SortClickTwice`. |
| EmployeeListPage.HeaderSplit | auth_emp_frontend/src/pages/EmployeeList.jsx:101 | For a header field, `field.split('_')[0]` is the field. |
| EmployeeListPage.SortClick | auth_emp_frontend/src/pages/EmployeeList.jsx:98-106 | A header click selects a key of the server's table for that field, descending exactly when the list was sorted ascending by it. |
| EmployeeListPage.HeaderKeys | auth_emp_frontend/src/pages/EmployeeList.jsx:164-210 | Each clickable header's field and its `_desc` form are server keys that order by that field, ascending and descending. |
| EmployeeListPage.SortClickTwice | auth_emp_frontend/src/pages/EmployeeList.jsx:98-104 | From ascending, two clicks on the same header return to ascending. From descending, one does. |
| EmployeeListPage.Indicator | auth_emp_frontend/src/pages/EmployeeList.jsx:109-114 | The sort indicator as a function. Its property is `IndicatorMatchesOrder`. |
| EmployeeListPage.IndicatorMatchesOrder | auth_emp_frontend/src/pages/EmployeeList.jsx:109-114 | A header shows an indicator exactly when the server sorts by its field, and the arrow points down exactly when the server sorts descending. |
| EmployeeListPage.PrevPage | auth_emp_frontend/src/pages/EmployeeList.jsx:311 | `Math.max(prev - 1, 1)`. Its property is `PagingStaysInRange`. |
| EmployeeListPage.NextPage | auth_emp_frontend/src/pages/EmployeeList.jsx:325 | `Math.min(prev + 1, totalPages)`. Its property is `PagingStaysInRange`. |
| EmployeeListPage.PagingStaysInRange | auth_emp_frontend/src/pages/EmployeeList.jsx:311-325 | Within `[1, totalPages]` both buttons stay within it. Previous moves back except on page 1, and Next moves forward except on the last page. |
| EmployeeListPage.WithoutId | auth_emp_frontend/src/pages/EmployeeList.jsx:63 | The filtered list holds exactly the entries without the id. |
| EmployeeListPage.WithoutAbsentId | auth_emp_frontend/src/pages/EmployeeList.jsx:63 | Filtering out an id no entry has gives the list back unchanged. |
| EmployeeListPage.WithToggled | auth_emp_frontend/src/pages/EmployeeList.jsx:77-81 | The `map` keeps the length of the list. Its other properties are `ToggledTouchesOnly` and `ToggleAgreesWithServer`. |
| EmployeeListPage.ToggledTouchesOnly | auth_emp_frontend/src/pages/EmployeeList.jsx:77-81 | The `map` sets `isActive` to the negated status on the entries with the id, and changes nothing else. |
| EmployeeListPage.DeleteAgreesWithServer | auth_emp_frontend/src/pages/EmployeeList.jsx:61-64 | After a delete of stored entries, every entry the page keeps is still stored on the server. |
| EmployeeListPage.ToggleAgreesWithServer | auth_emp_frontend/src/pages/EmployeeList.jsx:75-81 | A stored entry toggled with its own status equals the server's document after the toggle. |
| EmployeeListPage.ToggleKeepsOtherEntries | auth_emp_frontend/src/pages/EmployeeList.jsx:75-81 | Entries with other ids are still stored after the server's toggle. |
| EmployeeListPage.ListPage.constructor | auth_emp_frontend/src/pages/EmployeeList.jsx:7-15 | The page starts on page 1 of `date_desc`, which is the server's default order, with no search. |
| EmployeeListPage.ListPage.Params | auth_emp_frontend/src/pages/EmployeeList.jsx:33-40 | Every fetch asks for 10 records with the current search, sort and page. |
| EmployeeListPage.ListPage.ReceivePage | auth_emp_frontend/src/pages/EmployeeList.jsx:42-44 | A fetched page replaces the list, the count and the page total, and nothing else. |
| EmployeeListPage.ListPage.HandleSortChange | auth_emp_frontend/src/pages/EmployeeList.jsx:98-106 | A header click sets the next sort and resets the page to 1, leaving a sort the server knows. |
| EmployeeListPage.ListPage.Previous | auth_emp_frontend/src/pages/EmployeeList.jsx:311 | Previous clamps at page 1 and changes nothing else. |
| EmployeeListPage.ListPage.Next | auth_emp_frontend/src/pages/EmployeeList.jsx:325 | Next clamps at the last page and changes nothing else. |
| EmployeeListPage.ListPage.HandleDelete | auth_emp_frontend/src/pages/EmployeeList.jsx:58-64 | After a delete, every entry with the id leaves the list and the count drops by exactly 1. |
| EmployeeListPage.ListPage.HandleToggleStatus | auth_emp_frontend/src/pages/EmployeeList.jsx:73-81 | After a toggle, the list is the toggled map and nothing else changes. |
| CreateEmployeePage.OptionsAgreeWithServer | auth_emp_frontend/src/pages/CreateEmployee.jsx:20-21 | Every designation offered is in the server's enumeration, which also has `Sales`. The course options are the server's courses. The initial designation and gender are offered values. |
| CreateEmployeePage.SetFieldOnly | auth_emp_frontend/src/pages/CreateEmployee.jsx:23-29 | `handleChange` sets the named field and no other. |
| CreateEmployeePage.ClearError | auth_emp_frontend/src/pages/CreateEmployee.jsx:31-34 | Clearing one field's error blanks only that entry and keeps the set of keys. |
| CreateEmployeePage.CheckCourse | auth_emp_frontend/src/pages/CreateEmployee.jsx:37-45 | Checking appends the course. Unchecking leaves exactly the other courses. |
| CreateEmployeePage.WithoutCourse | auth_emp_frontend/src/pages/CreateEmployee.jsx:44 | The filter keeps exactly the other courses and never lengthens the list. |
| CreateEmployeePage.WithoutCourseCounts | auth_emp_frontend/src/pages/CreateEmployee.jsx:44 | Unchecking removes every occurrence of the course and keeps each other course as often as before. |
| CreateEmployeePage.CheckUncheck | auth_emp_frontend/src/pages/CreateEmployee.jsx:37-45 | Checking an unselected course and unchecking it again gives the list back. |
| CreateEmployeePage.BlankIsTrimEmpty | auth_emp_frontend/src/pages/CreateEmployee.jsx:89 | `!s.trim()` holds exactly when the text is all white space. |
| CreateEmployeePage.ValidEmailIsLoose | auth_emp_frontend/src/pages/CreateEmployee.jsx:94-96 | Every address the server accepts passes the client's `\S+@\S+\.\S+`. |
| CreateEmployeePage.LooseEmailIsWeaker | auth_emp_frontend/src/pages/CreateEmployee.jsx:96 | The client lets through an address the server refuses (`a@b.c`). |
| CreateEmployeePage.ValidMobileIsDigits | auth_emp_frontend/src/pages/CreateEmployee.jsx:101-103 | A number the server accepts passes the client's digits check. |
| CreateEmployeePage.ClientMobileIsWeaker | auth_emp_frontend/src/pages/CreateEmployee.jsx:103 | The client does not check the length of the number (`12345`). |
| CreateEmployeePage.ServerValidIsClientValid | auth_emp_frontend/src/pages/CreateEmployee.jsx:85-114 | A form whose fields the server accepts passes `validateForm`. |
| CreateEmployeePage.FormEntries | auth_emp_frontend/src/pages/CreateEmployee.jsx:127-139 | The multipart body as a function. Its properties are `BuildEntries` and `SubmittedCourses`. |
| CreateEmployeePage.ParsedCourse | Backend/controllers/employeeController.js:88 | How the body parser gives the handler the `course` field: absent, one string, or an array. Its property is `SubmittedCourses`. |
| CreateEmployeePage.SubmittedCourses | auth_emp_frontend/src/pages/CreateEmployee.jsx:127-139 | The selected courses reach the server's document unchanged and in order, as one field or several. |
| CreateEmployeePage.BuildEntries | auth_emp_frontend/src/pages/CreateEmployee.jsx:127-139 | The submit builds the five fields, one `course` entry per selected course in order, and `image` only when a file was chosen. |
| CreateEmployeePage.ErrorsFor | auth_emp_frontend/src/pages/CreateEmployee.jsx:85-110 | The error object of `validateForm` as a function. Its properties are `ErrorsForKeys` and `NoErrorsIffValid`. |
| CreateEmployeePage.ErrorsForKeys | auth_emp_frontend/src/pages/CreateEmployee.jsx:85-110 | The error object has a key exactly when that field's check fails, with that check's message. Designation, gender and image are never checked. |
| CreateEmployeePage.NoErrorsIffValid | auth_emp_frontend/src/pages/CreateEmployee.jsx:112-113 | The error object is empty exactly when every check passes: the trimmed name, the e-mail pattern, the digits-only mobile, and a course. |
| CreateEmployeePage.CreatePage.constructor | auth_emp_frontend/src/pages/CreateEmployee.jsx:7-17 | The form starts empty with designation HR, gender Male, no course and no image, and no errors. |
| CreateEmployeePage.CreatePage.HandleChange | auth_emp_frontend/src/pages/CreateEmployee.jsx:23-35 | Typing updates only the named field and clears only that field's error, keeping offered values in the selects. |
| CreateEmployeePage.CreatePage.HandleCheckboxChange | auth_emp_frontend/src/pages/CreateEmployee.jsx:37-51 | A checkbox change updates the course list and clears only the course error. |
| CreateEmployeePage.CreatePage.HandleImageChange | auth_emp_frontend/src/pages/CreateEmployee.jsx:53-83 | A file of another type only sets the image error and leaves the chosen file. A JPEG or PNG becomes the chosen file and clears that error. |
| CreateEmployeePage.CreatePage.ValidateForm | auth_emp_frontend/src/pages/CreateEmployee.jsx:85-114 | `validateForm` stores the error object for the form and answers true exactly when every check passes. |

## Left out

- File system calls are not modelled: `fs.unlink`, its callback, `existsSync` and `mkdirSync`. `uploads/` is a set of file names, a path and its `\`-to-`/` form name the same file, and an unlink always succeeds.
- Multer's disk storage and its `Date.now()` file names are not modelled. A received file is given as a path no file has yet.
- The 5 MB size limit is not modelled.
- Express wiring, `server.js` and the route table are not modelled. A file the mime filter refuses never reaches a handler.
- `process.env.JWT_SECRET`, the `iat` and `exp` fields of a token, and wall time are not modelled. `sign`, `verify`, `hash` and `matches` are uninterpreted parameters, and the creation time `now` is a parameter of create.
- `verify` is unconstrained, including on the empty token that `Bearer ` with a trailing space yields. `jsonwebtoken` throws on it; `EmptyTokenRefused` states the refusal under that premise, and no other lemma depends on it.
- The `_id` the driver generates is a parameter of register.
- Mongoose's `timestamps` fields are not modelled.
- Database errors other than a refused save are not modelled: a lost connection, or a `CastError` on an id that is not a number. So the 500 answers of `getAllEmployees`, `getEmployeeById`, `deleteEmployee` and `login` are absent. Ids are natural numbers.
- The read-then-increment race of the numbering hooks is not modelled. Every operation is one atomic step.
- `page` and `limit` are positive naturals. Their coercion from query strings, and NaN, are not modelled.
- The search text is a literal substring. `$regex` operators in it are not interpreted.
- `lowercase`, `toLowerCase` and the `i` flag fold ASCII letters only.
- The duplicate-email queries are assumed to compare against the trimmed, lower-cased form, as the schema's setters cast the query value.
- Sort ties: how the database orders records with equal keys is not modelled. `List` uses an insertion sort, and `ListIsListing` states the promise without a tie order.
- Strings compare by code point, the order of the database's binary UTF-8 comparison.
- UTF-16 code units are not modelled: surrogate pairs count as one character, and lone surrogates do not exist. `length`-based checks on text outside the Basic Multilingual Plane are therefore not captured.
- EmployeeQuery.List: its contract states membership and sortedness of the page. The exact page, against any sorted ordering, is in `ListIsListing` and `ListPage`.
- EmployeeController.UpdateKeepsImages: it excludes the 500 path, because as written that path can remove a document's image (see Findings).
- EmployeeController.EmployeeStore.Update: it runs the corrected order of the finding below, through `EmployeeStore.UpdateSteps`. So on a failed save with a new file, its `uploads/` keeps the old image, which the code as written removes. Status, response and documents are proved equal to the code's.
- EmployeeController.EmployeeStore.UpdateSteps: it equals `UpdateOutcomeFixed`, not the code as written. So on a failed save with a new file, its `uploads/` keeps the old image, which lines 211-218 of `Backend/controllers/employeeController.js` remove before the save. Status, response and documents equal the code's (`UpdateFixedAgrees`).
- React rendering, the loading and error flags, and the confirm dialog before a delete are not modelled.
- The `searchQuery` input and its 500 ms debounce are not modelled. The debounced search is a field that only the fetch reads.
- The FileReader preview, `localStorage`, the axios calls and their failures, and navigation after submit are not modelled.
- The list page's handlers run after the server's answer succeeded. Their failure branches only set an error message.
- The frontend does not check that an image was chosen, so a form without one passes `validateForm`. The server answers 400.
- `LoginPage.jsx`, `Sidebar.jsx`, `Dashboard.jsx` and `App.jsx` are not part of this model. They are UI, and their checks repeat the backend's.

## Findings

| source | as written | input that shows it | evidently intended | confidence | as-written member | corrected member |
|---|---|---|---|---|---|---|
| Backend/controllers/employeeController.js:210-243 | `updateEmployee` unlinks the old image before `save()`. When the save then fails, the catch block also removes the new file, and the document keeps pointing at the old, removed image. | A PUT with a new JPEG for an existing employee and designation `CEO`. `CEO` passes the controller's checks, and the schema's `enum` refuses it in `save()`. | Remove the old image only once the save has succeeded. Same answers and documents, and every document keeps its image file. | not executed | EmployeeController.UpdateCanLoseImage | EmployeeController.UpdateFixedKeepsImages |
