# NFLO backend — a Dafny model of registration, admin edits and the exam

The NFLO backend is an Express/Mongoose service for an olympiad. Participants pay and
register, and receive a registration id of the form `NFLO26-<number>` with their mobile
number as password. Admins import participants in bulk, edit them, and upload their
photos as a zip archive; every admin operation is written to an audit log. Participants
then take a single-attempt exam whose questions depend on their category.

This project models that core over an in-memory store, one request at a time:

| file | module | models |
|---|---|---|
| `wrappers.dfy` | `Wrappers` | `Option` |
| `text.dfy` | `Text` | the JavaScript string operations the handlers rely on: `trim`, `parseInt(_, 10)`, `String(n)`, `split`, `startsWith`, `replace` |
| `constants.dfy` | `Constants` | `config/constants.js`: category labels, `PRICES`, `USER_CATEGORY_ENUM` |
| `documents.dfy` | `Documents` | user documents as maps of scalar values, truthiness, `String(x \|\| "").trim()`, the User schema's validation and unique index |
| `registration_ids.dfy` | `RegistrationIds` | `generateRegistrationId` and the start of a bulk block |
| `registration.dfy` | `Registration` | `registerUser` (price, signature, photo checks, then creation) and `loginUser` |
| `audit.dfy` | `Audit` | the audit records the admin operations write |
| `bulk_import.dfy` | `BulkImport` | `bulkRegisterUsers`: the numbering loop and `insertMany` |
| `admin_update.dfy` | `AdminUpdate` | `updateUser`: the photo step, the diff loop, `save` and the audit |
| `photo_upload.dfy` | `PhotoUpload` | `bulkUploadPhotos`: the matching and counting loop and its audit |
| `user_store.dfy` | `UserStore` | the user collection and audit log as a class changed in place by the four user requests |
| `exam.dfy` | `Exam` | `addQuestion`, `startExam`, `submitExam` over a class holding questions and exam records |

Users live in a sequence in creation order, and a user's `_id` is its position; a
question's `_id` is its position in the question store; exam records are a map from the
user's id. The operations are specified by functions from the old store to the new store
and outcome; the loops of the source (`bulkRegisterUsers`, the `forEach` of `updateUser`,
the entry loop of `bulkUploadPhotos`, the grading loop of `submitExam`) are methods proved
equal to those functions, and the classes `UserStore.Store` and `Exam.ExamStore` apply
them in place while keeping their invariants (unique registration ids; only
schema-valid questions).

## Model

| member | source | states |
|---|---|---|
| Constants.PriceLookup | config/constants.js:12-16 | `PRICES[key] \|\| 0` is a number exactly when the key names no member of `Object.prototype`; that number is never negative and is positive exactly for the keys the table lists |
| Constants.InheritedText | config/constants.js:12-16 | an inherited `PRICES` member reads as non-empty text once concatenated |
| Constants.HardCopyFee | config/constants.js:15 | the hard-copy fee is the table's `hardCopy` entry |
| Constants.PriceTable | config/constants.js:12-16 | junior costs 300, senior 500, the hard copy 300; "Class 11th / 12th", "College" and a missing category cost 0; "constructor" is no number |
| Constants.Values | config/constants.js:19 | `Object.values` keeps one label per entry, in entry order |
| Constants.CategoryEnumOrder | config/constants.js:3-9 | `USER_CATEGORY_ENUM` is exactly [junior label, senior label] |
| Constants.EveryCategoryPriced | config/constants.js:12-19 | every label of `USER_CATEGORY_ENUM` has a positive price |
| Text.TrimStart | controllers/userController.js:402-403 | the result is a suffix of the input, all of whose removed characters are white space, and does not start with white space |
| Text.TrimEnd | controllers/userController.js:402-403 | the result is a prefix of the input, all of whose removed characters are white space, and does not end with white space |
| Text.Trim | controllers/userController.js:402-403 | the result is a stretch of the input with only white space before and after it, and neither starts nor ends with white space |
| Text.TrimIdempotent | controllers/userController.js:402-403 | trimming twice is trimming once |
| Text.NatToDecimal | controllers/userController.js:33 | `String(n)` is a non-empty digit string whose value is n, with no leading zero unless it is "0" |
| Text.DecimalUntrimmed | controllers/userController.js:402-403 | `String(n)` of an integer has nothing to trim |
| Text.ParseIntOfDecimal | controllers/userController.js:27 | `parseInt(String(n), 10)` gives back n, also with a non-digit tail |
| Text.ParseInt | controllers/userController.js:27 | `parseInt(s, 10)`: leading white space, an optional sign, then the digit prefix; NaN without digits (reference definition; see ParseIntOfDecimal and ParseIntWithoutMinus) |
| Text.ParseIntWithoutMinus | controllers/userController.js:27 | without a minus sign in its input `parseInt` yields no negative number |
| Text.FirstField | controllers/userController.js:454 | `split(".")[0]` is the prefix before the first separator and holds none |
| Text.SecondField | controllers/userController.js:26-27 | `split("-")[1]` is missing exactly when there is no separator; otherwise it is the text after the first separator up to the next one or the end |
| Text.SecondFieldOfJoin | controllers/userController.js:26-27 | splitting `a + "-" + b` gives back b |
| Text.ReplaceChar | controllers/userController.js:469 | the replacement keeps the length, turns every backslash into "/" and leaves other characters alone |
| Text.LastField | controllers/userController.js:453 | `entry.name` is the text after the last "/" (reference definition; see LastFieldSuffix) |
| Text.LastFieldSuffix | controllers/userController.js:453 | the base name is a suffix free of "/", and all of the path or preceded by "/" |
| Documents.Field | controllers/userController.js:402 | reading a key yields its value when present and `undefined` otherwise |
| Documents.OrElse | controllers/userController.js:326-341 | `x \|\| fallback` is x when x is truthy and the fallback otherwise |
| Documents.Truthy | controllers/userController.js:307 | JavaScript truthiness: non-empty text, `true`, a non-zero number (reference definition) |
| Documents.ToText | controllers/userController.js:313 | `String(v)` of text, a boolean and an integer (reference definition) |
| Documents.NormText | controllers/userController.js:402-403 | every falsy value normalises to "", text to its trimmed text, `true` to "true" and a non-zero number to its decimal digits |
| Documents.SchemaValid | models/User.js:22-42 | the User schema's validation: every required field present and not "", and a category of the enum (reference definition; see UnlistedCategoryInvalid, NewUserValid) |
| Documents.LastRegistrationId | controllers/userController.js:17 | the registration id of the newest user, if any (reference definition; see GeneratedId) |
| Documents.Persisted | models/User.js:3-46 | a strict-mode save keeps exactly the document's keys the schema declares, with their values |
| Documents.PersistedWhole | models/User.js:3-46 | a document whose keys the schema all declares is stored whole |
| Documents.UndeclaredPhotoKeys | models/User.js:3-46 | the schema declares neither `isPhotoUploaded` nor `schoolName` |
| Documents.AppendKeepsUnique | models/User.js:6-9 | storing a document whose id is free keeps registration ids unique |
| RegistrationIds.SuffixNumber | controllers/userController.js:26-27 | the number after the first "-" of an id, NaN as `None` (reference definition; see SuffixOfIdFor) |
| RegistrationIds.IdFor | controllers/userController.js:33 | "NFLO26-" followed by the number (reference definition; see IdForInjective) |
| RegistrationIds.SuffixOfIdFor | controllers/userController.js:26-27 | the number of an id the allocator builds reads back from it |
| RegistrationIds.IdForInjective | controllers/userController.js:33 | ids built for different numbers differ |
| RegistrationIds.SuffixNumberNonNegative | controllers/userController.js:26-27 | the parsed suffix is never negative |
| RegistrationIds.FirstId | controllers/userController.js:20-23 | the first id is "NFLO26-1001" |
| RegistrationIds.NextIdNumber | controllers/userController.js:26-31 | the allocated number is never below 1001 |
| RegistrationIds.NextIdNumberCases | controllers/userController.js:21-31 | with a parsable last id the number exceeds it and is its successor or 1001; otherwise it is 1001 |
| RegistrationIds.GenerateRegistrationId | controllers/userController.js:16-34 | the id is "NFLO26-" followed by the allocated number |
| RegistrationIds.GeneratedId | controllers/userController.js:20-33 | no last id gives "NFLO26-1001"; the allocated number reads back from the id |
| RegistrationIds.NextAllocationIncrements | controllers/userController.js:26-33 | allocating after the id just allocated yields the next number |
| RegistrationIds.ConsecutiveIdsDiffer | controllers/userController.js:16-34 | two registrations in sequence receive different ids |
| RegistrationIds.BulkStartNumber | controllers/userController.js:292-300 | the bulk block starts after the parsed last suffix, or after 1000 when there is none |
| RegistrationIds.BulkBelowFloor | controllers/userController.js:292-310 | when the last suffix is below 1000 the bulk block starts below 1001, where a single registration gets 1001 |
| RegistrationIds.BulkMatchesSingleAboveFloor | controllers/userController.js:292-310 | from 1000 upwards bulk and single allocation agree |
| Registration.ExpectedTotal | controllers/userController.js:111-113 | the recomputed total: the category's price plus 300 for "true" as hard copy, no number for an inherited name (reference definition; see ExpectedTotals) |
| Registration.ExpectedTotals | controllers/userController.js:109-112 | the recomputed total per label, plus 300 for "true" as hard copy; "constructor" gives no number |
| Registration.NewUser | controllers/userController.js:142-160 | the document `User.create` receives (reference definition; see NewUserDerived, NewUserFields) |
| Registration.NewUserDerived | controllers/userController.js:141-160 | the new user holds the id, the mobile number as password, the amount paid, the photo path, the book flag, the payment id as transaction id, and the role "user" the schema gives by default (models/User.js:14-18) |
| Registration.NewUserFields | controllers/userController.js:144-154 | the form's personal fields are copied unchanged |
| Registration.NewUserCategory | controllers/userController.js:150 | the new user's category is the form's |
| Registration.FailedCheck | controllers/userController.js:109-134 | when no check fails the total and the photo are present |
| Registration.ChecksInOrder | controllers/userController.js:109-134 | amount (a number equal to the claimed total), then signature over "orderId\|paymentId", then photo, each failing exactly when the earlier ones pass and it does not; a failure stores nothing |
| Registration.InheritedCategoryRefused | controllers/userController.js:111-119 | a category naming an `Object.prototype` member always fails the amount check and stores nothing |
| Registration.CreateUser | controllers/userController.js:142-160 | `User.create`: stores the new document when it validates and its id is free, else fails (reference definition; see CreatedUser) |
| Registration.CreatedUser | controllers/userController.js:141-159 | creation stores exactly the new document when it validates and the id is free, and keeps ids unique |
| Registration.RegisterUserWith | controllers/userController.js:101-182 | `registerUser` against a given category enum (reference definition; see RegisteredUser) |
| Registration.RegisterUser | controllers/userController.js:101-182 | `registerUser` against the User schema's enum (reference definition; see SeniorNeverRegisters) |
| Registration.RegisteredUser | controllers/userController.js:101-160 | a user is stored only after all checks pass, under the allocated id, with password = mobile, totalPaid = the claimed total and the photo; nothing is stored otherwise |
| Registration.SeniorNeverRegisters | controllers/userController.js:109-159 | a senior registration never stores a user (see Findings) |
| Registration.SeniorOutsideSchemaEnum | models/User.js:32-36 | the senior label is not in the User schema's enum |
| Registration.UnlistedCategoryInvalid | models/User.js:32-36 | a document whose category the enum does not list fails validation |
| Registration.CollegeRegistersFree | controllers/userController.js:109-159 | a stored "College" participant without the book paid 0 |
| Registration.CorrectedRegistrationCharges | controllers/userController.js:109-159 | validating against `USER_CATEGORY_ENUM`, every stored registration paid at least the positive price of its category |
| Registration.ValidCategoryFromForm | controllers/userController.js:150 | a new user that validates took an enum-listed category from the form |
| Registration.NewUserFilled | controllers/userController.js:141-159 | a complete form gives a user holding every required field non-empty |
| Registration.NewUserValid | controllers/userController.js:141-159 | a complete form with a listed category gives a user that validates |
| Registration.RegisterAsCreates | controllers/userController.js:136-159 | once the checks pass, registration is the creation of the user |
| Registration.CorrectedSeniorRegisters | controllers/userController.js:109-159 | under the corrected enum a complete senior registration with a free id is stored |
| Registration.FindByRegistrationId | controllers/userController.js:187 | the lookup returns the first user holding the id, and nothing exactly when none holds it |
| Registration.LoginUser | controllers/userController.js:184-190 | `loginUser`: the user found by id logs in when its password matches (reference definition; see LoginIff) |
| Registration.LoginIff | controllers/userController.js:184-190 | with unique ids, login succeeds exactly when a user holds that id and that password, and logs in that user |
| Registration.RegisterThenLogin | controllers/userController.js:136-190 | a participant just registered logs in with the issued id and their mobile number |
| BulkImport.KeptRows | controllers/userController.js:305-307 | the kept rows are rows of the input with a truthy name and mobile, every such row is kept, and all rows are kept when all qualify |
| BulkImport.KeptRowsSplit | controllers/userController.js:305-307 | filtering keeps the order: the kept rows of two stretches are those of the first, then those of the second |
| BulkImport.CalculatedTotal | controllers/userController.js:316-318 | the computed price is a number, or non-empty text when the category names an `Object.prototype` member |
| BulkImport.BulkUser | controllers/userController.js:320-348 | the document pushed for a kept row (reference definition; see the BulkUser rows) |
| BulkImport.BesideEmail | controllers/userController.js:320-348 | every entry but the email is the built one |
| BulkImport.BulkUserCredentials | controllers/userController.js:309-322 | an imported user holds its id and its mobile number, as text, as password |
| BulkImport.BulkUserIdentity | controllers/userController.js:325-328 | an imported user keeps the row's name and mobile |
| BulkImport.BulkUserPlaceholder | controllers/userController.js:346-347 | an imported user starts with the placeholder photo and the flag cleared |
| BulkImport.BulkUserCategory | controllers/userController.js:330 | an imported user has the row's category or the default |
| BulkImport.BulkUserTotal | controllers/userController.js:315-341 | an imported user paid the row's total, or the computed price when the row gives none |
| BulkImport.BulkUserFamily | controllers/userController.js:326-334 | parents' names and course are the row's or their defaults |
| BulkImport.BulkUserAddress | controllers/userController.js:335-337 | address, city and pincode are the row's or their defaults |
| BulkImport.BulkUserEmail | controllers/userController.js:329 | an imported user has the row's email when the row gives one |
| BulkImport.BulkUserFilled | controllers/userController.js:320-348 | a row with an email gives a user holding every required field non-empty |
| BulkImport.BulkRows | controllers/userController.js:305-349 | the documents the loop builds, kept rows numbered in order (reference definition; see BulkRowsNumbering) |
| BulkImport.BulkRowsNumbering | controllers/userController.js:305-310 | one document per kept row, the k-th kept row getting number start + k + 1: skipped rows consume no number |
| BulkImport.BulkRowsStep | controllers/userController.js:305-310 | one iteration: a kept row adds the document numbered after the last, a skipped row nothing |
| BulkImport.BulkRowsLength | controllers/userController.js:305-349 | one document per kept row |
| BulkImport.BulkUserAt | controllers/userController.js:305-349 | the k-th document is the user built for the k-th kept row with the id for start + k + 1 |
| BulkImport.BulkIdAt | controllers/userController.js:309-321 | the k-th document holds the id for start + k + 1 |
| BulkImport.BulkIdsDistinct | controllers/userController.js:305-349 | the ids of a batch are pairwise distinct |
| BulkImport.PrepareBulkUsers | controllers/userController.js:302-349 | the loop builds exactly the numbered documents: one per kept row, the k-th being the document built for the k-th kept row with number start + k + 1 |
| BulkImport.BulkRowsIds | controllers/userController.js:305-321 | one document per kept row, the k-th holding the id for start + k + 1 |
| BulkImport.InsertMany | controllers/userController.js:354 | `insertMany(..., {ordered: false})`: invalid documents dropped, clashing ids counted as duplicates, the rest stored in order (reference definition; see InsertManyAppends) |
| BulkImport.InsertManyAppends | controllers/userController.js:354 | `insertMany` only appends valid documents of the batch and keeps ids unique |
| BulkImport.InsertManyAllFresh | controllers/userController.js:354 | a batch of valid documents with distinct free ids is stored whole with no duplicate |
| BulkImport.InsertManyStoresHead | controllers/userController.js:354 | a first document that validates and whose id is free is stored before the rest of the batch |
| BulkImport.RestInsertable | controllers/userController.js:354 | after storing the first document of such a batch, the rest is still insertable |
| BulkImport.StillFree | models/User.js:6-9 | a free id stays free after storing a document with another id |
| BulkImport.BulkRegister | controllers/userController.js:282-377 | `bulkRegisterUsers` as a function of the store (reference definition; see BulkRegisterAppends, BulkRegisterReport) |
| BulkImport.BulkRejectsEmpty | controllers/userController.js:287-289 | a missing or empty list is refused exactly, and changes nothing |
| BulkImport.BulkRegisterAppends | controllers/userController.js:292-363 | the import only appends and keeps ids unique |
| BulkImport.BulkRegisterReport | controllers/userController.js:352-374 | an audit record is written exactly when rows were kept and no duplicate was refused; it counts the kept rows and names the first id of the block |
| BulkImport.BulkStoresFreshBlock | controllers/userController.js:352-354 | a block of valid documents with free ids is stored whole after the existing users |
| BulkImport.BulkRegisterInserts | controllers/userController.js:352-354 | the store after an import is what `insertMany` leaves |
| BulkImport.WrittenDefaultNeverValidates | controllers/userController.js:330 | a row without category gets "JUNIOR", which never validates (see Findings) |
| BulkImport.LabelDefaultValidates | controllers/userController.js:330 | with the junior label as default such a row validates |
| BulkImport.WrittenSchemaDropsImportFields | models/User.js:3-46 | an imported user carries `schoolName` and `isPhotoUploaded`, which the written schema does not store (see Findings) |
| BulkImport.CorrectedSchemaKeepsImport | models/User.js:3-46 | with both keys declared, an imported user is stored whole |
| AdminUpdate.Update | controllers/userController.js:388-410 | the reference edit and change record of `updateUser` (reference definition; see UpdateKeepsProtected, UpdateCopiesDiffering, UpdateRecordsIff) |
| AdminUpdate.ApplyUpdates | controllers/userController.js:388-411 | the photo step and the loop over `Object.keys(updates)` produce exactly the reference edit and change record |
| AdminUpdate.UpdateKeepsProtected | controllers/userController.js:406 | `_id`, `registrationId` and `password` are never changed nor recorded |
| AdminUpdate.UpdateKeepsUnsent | controllers/userController.js:400-410 | a key the body does not name keeps its value, the photo fields aside |
| AdminUpdate.UpdateCopiesDiffering | controllers/userController.js:400-410 | a differing unprotected key is copied and recorded as {from, to}; an equal one is left alone |
| AdminUpdate.UpdateSettles | controllers/userController.js:400-410 | after the edit every sent unprotected key reads as the sent text |
| AdminUpdate.UpdateIdempotent | controllers/userController.js:400-410 | sending the same body again without a file changes and records nothing |
| AdminUpdate.UpdateRecordsIff | controllers/userController.js:391-415 | something is recorded exactly when a file came or some sent key differs |
| AdminUpdate.FalsyStoredReadsEmpty | controllers/userController.js:402-408 | a stored `false` or `0` against sent non-blank text counts as a change |
| AdminUpdate.PaddedTextIgnored | controllers/userController.js:402-406 | text that differs only in surrounding white space changes nothing |
| AdminUpdate.ChangeStep | controllers/userController.js:406-409 | changing one more key sets it to the sent value and records {from, to} with the value before the change |
| AdminUpdate.WithPhotoKeeps | controllers/userController.js:391-396 | the photo step touches only the two photo fields |
| AdminUpdate.UpdateUser | controllers/userController.js:379-430 | `updateUser` as a function of the store (reference definition; see UpdateUserStore, UpdateUserAudit) |
| AdminUpdate.UpdateUserStore | controllers/userController.js:379-425 | unknown user or refused save: nothing changes; otherwise only that user is replaced by the edit |
| AdminUpdate.UpdateUserAudit | controllers/userController.js:412-423 | a saved edit keeps the registration id and is audited exactly when something was recorded, naming the admin, the user and whether a photo came, with the edit's change map as details |
| AdminUpdate.UpdateChangeKeys | controllers/userController.js:388-410 | the change map holds exactly the two photo entries (when a file came) and the sent keys that differ; a photo entry no sent key overwrites holds the old or the new path |
| AdminUpdate.UpdateUserKeepsUnique | controllers/userController.js:379-425 | an edit keeps registration ids unique |
| PhotoUpload.PhotoPathFor | controllers/userController.js:462-469 | the stored path is "uploads/", the stamp's digits, "-" and the file name with every backslash turned into "/" |
| PhotoUpload.Step | controllers/userController.js:450-477 | one iteration of the entry loop (reference definition; see StepSetsPhoto, StepLeaves, StepEditsPhotos) |
| PhotoUpload.Process | controllers/userController.js:449-478 | the entry loop as a function of the entries seen (reference definition; see UploadTally, UploadErrors) |
| PhotoUpload.UploadPhotos | controllers/userController.js:442-478 | the entry loop computes exactly the store, counters and messages of the reference process |
| PhotoUpload.AbortedStays | controllers/userController.js:471 | once a save has thrown, later entries change nothing |
| PhotoUpload.UploadTally | controllers/userController.js:449-478 | one message per failure; success + failed equals the processable entries when no save threw |
| PhotoUpload.PhotoEditKeepsLookup | controllers/userController.js:457 | editing only photo fields keeps every registration id and every lookup |
| PhotoUpload.PhotographedHasPhoto | controllers/userController.js:469-470 | a photographed user has the flag raised and a path under "uploads/" |
| PhotoUpload.PhotographedKeeps | controllers/userController.js:469-470 | storing a photo changes only the two photo fields |
| PhotoUpload.StepEditsPhotos | controllers/userController.js:468-471 | one iteration only changes photo fields |
| PhotoUpload.UploadEditsPhotosOnly | controllers/userController.js:449-478 | the upload only changes photo fields of stored users |
| PhotoUpload.UploadKeepsUnique | controllers/userController.js:449-478 | the upload keeps registration ids unique |
| PhotoUpload.UploadErrors | controllers/userController.js:474-477 | the messages are exactly those of the processable files naming no stored user |
| PhotoUpload.StepSetsPhoto | controllers/userController.js:459-473 | a matched entry stores that user's photo |
| PhotoUpload.StepKeepsPhoto | controllers/userController.js:449-478 | a stored photo stays stored |
| PhotoUpload.StepLeaves | controllers/userController.js:449-478 | an iteration that does not match a user leaves it as it was |
| PhotoUpload.LastEntrySetsPhoto | controllers/userController.js:459-473 | the last entry, when it matches, stores that user's photo |
| PhotoUpload.UploadSetsPhoto | controllers/userController.js:449-478 | every user named by a processable entry ends with the flag raised and a path under "uploads/" |
| PhotoUpload.UploadLeavesUnnamed | controllers/userController.js:449-478 | a user named by no processable entry is unchanged |
| PhotoUpload.FirstFive | controllers/userController.js:487 | `errors.slice(0, 5)` is the first five messages, or all of them when there are at most five |
| PhotoUpload.WrittenSchemaDropsPhotoFlag | models/User.js:3-46 | as written a photographed user is saved without its photo flag (see Findings) |
| PhotoUpload.CorrectedSchemaKeepsPhotoFlag | models/User.js:3-46 | with the flag declared a photographed user is stored whole, flag raised |
| PhotoUpload.BulkUploadPhotos | controllers/userController.js:432-501 | `bulkUploadPhotos` as a function of the store (reference definition; see BulkUploadReport) |
| PhotoUpload.BulkUploadReport | controllers/userController.js:432-501 | no archive changes nothing; a completed upload writes one audit record with both counters and exactly the first min(5, n) of the n messages, which are those of the files naming no stored user |
| UserStore.Store.constructor | models/User.js:6-9 | an empty store has unique ids and an empty log |
| UserStore.Store.Register | controllers/userController.js:101-160 | the store after a registration is the one `RegisterUserWith` describes, ids stay unique and the log is unchanged |
| UserStore.Store.BulkRegister | controllers/userController.js:282-377 | the store and log after an import are those `BulkRegister` describes, ids stay unique |
| UserStore.Store.UpdateUser | controllers/userController.js:379-430 | the store and log after an edit are those `UpdateUser` describes, ids stay unique |
| UserStore.Store.BulkUploadPhotos | controllers/userController.js:432-501 | the store and log after an upload are those `BulkUploadPhotos` describes, ids stay unique |
| Exam.AddQuestionSpec | controllers/examController.js:5-26 | `addQuestion` as a function of the questions (reference definition; see AddQuestionIff) |
| Exam.AddQuestionIff | controllers/examController.js:5-26 | missing-fields exactly when a field is absent or empty; added exactly when the schema accepts; then appended with marks defaulting to 1, else nothing stored |
| Exam.AddQuestionKeepsValid | models/Question.js:4-27 | only schema-valid questions are stored |
| Exam.Served | controllers/examController.js:46 | the category's questions without `correctOption` (reference definition; see ServedExactly) |
| Exam.ServedExactly | controllers/examController.js:46 | the served questions are exactly the stored questions of the category, without `correctOption` |
| Exam.UnlistedCategoryServedNothing | models/Question.js:18-22 | a category outside `USER_CATEGORY_ENUM` is served no question |
| Exam.StartExamSpec | controllers/examController.js:29-57 | `startExam` as a function of the records (reference definition; see StartExamOnce) |
| Exam.StartExamOnce | controllers/examController.js:35-50 | a user with any record is refused and nothing is created; otherwise exactly one in-progress record is created, even when no question is found |
| Exam.SecondStartRefused | controllers/examController.js:35-38 | a second start is always refused |
| Exam.Score | controllers/examController.js:70-78 | the marks of the stored questions whose answer is the correct option (reference definition; see ScoreBounds, ScoreCountsCorrectAnswer) |
| Exam.Grade | controllers/examController.js:70-78 | the grading loop computes the score: the marks of the questions whose answer is the correct option |
| Exam.ScoreBounds | controllers/examController.js:74-78 | with non-negative marks, 0 <= score <= the marks of the answered questions |
| Exam.ScoreIgnoresUnknownIds | controllers/examController.js:72-78 | answers for unknown ids contribute nothing |
| Exam.ScoreIgnoresWrongAnswer | controllers/examController.js:75 | a wrong answer contributes nothing |
| Exam.ScoreCountsCorrectAnswer | controllers/examController.js:75-76 | a correct answer adds exactly that question's marks |
| Exam.ScoreAgreesBelow | controllers/examController.js:72-78 | the score depends only on the answers for stored question ids |
| Exam.SubmitExamSpec | controllers/examController.js:60-91 | `submitExam` as a function of the records (reference definition; see SubmitExamIff) |
| Exam.SubmitExamIff | controllers/examController.js:60-91 | no record, a record not in progress, or no answers change nothing; otherwise only the user's record is completed at now with the score |
| Exam.SecondSubmitRefused | controllers/examController.js:67 | after a successful submit a second one is refused and changes nothing |
| Exam.StartThenSubmit | controllers/examController.js:29-91 | start then submit completes the attempt with the score of the answers |
| Exam.ExamStore.constructor | models/ExamResult.js:12-16 | an empty exam store is valid |
| Exam.ExamStore.AddQuestion | controllers/examController.js:5-26 | adding a question updates the questions as `AddQuestionSpec` says and keeps them valid |
| Exam.ExamStore.StartExam | controllers/examController.js:29-57 | starting updates the records as `StartExamSpec` says |
| Exam.ExamStore.SubmitExam | controllers/examController.js:60-91 | submitting updates the records as `SubmitExamSpec` says, grading with the loop |

## Left out

- OTP sending and verification, Razorpay order creation, email delivery, `getAllUsers`, `getAuditLogs` and the ebook download: I/O, foreign APIs, and queries the database evaluates.
- HMAC-SHA256 is the parameter `mac`; JWT signing and checking are not modelled, and the routes' authentication middleware is not part of this model.
- Registration: a failure of the confirmation email after the user was created (a 500 with the user stored) is not modelled; the outcome is `Registered`.
- `Number(totalPrice)` is a parameter (`Option<int>`); fractional amounts are not modelled.
- Mongoose casting and setters (`trim`, `lowercase`) are not modelled: values are stored as sent.
- BulkRegister, UpdateUser, BulkUploadPhotos: `adminId` is a parameter, taken to be the admin's ObjectId, and the audit record is always written. The source writes `adminId: req.user._id` (controllers/userController.js:358, 417, 485), but the only middleware in the source sets `req.user` to the decoded token, which carries `id` and `role` and no `_id` (controllers/userController.js:192, middleware/auth.js:19); the admin routes are not part of this model. If they use that middleware, `AuditLog.create` fails validation on its required `adminId` (models/AuditLog.js:5-9) after the users were written: the import answers 500 "Bulk import failed", the edit 500 "Update failed" and the upload 500 "Bulk upload failed", each with the store already changed. The model reports success and records the audit.
- Strict mode: the model stores whole documents, which is what the schema with `isPhotoUploaded` and `schoolName` declared would store (see Findings); `Persisted` states what the written schema keeps. Other unknown keys sent to `updateUser` are stored and recorded here, where a strict-mode save would drop them.
- Update: a body key naming a member of a Mongoose document (such as "save") reads as that member's function text and, once overwritten, makes `user.save()` throw (a 500 with nothing stored); here such a key is an ordinary field.
- Schema validation is modelled as `SchemaValid` on the whole document: required fields present and not "", and a listed category; type casting errors are not modelled.
- `Date.now()` is a clock parameter: in the bulk import `clock(n)` is read while the row numbered n is built, in the photo upload `clock(k)` for entry k; exam timestamps are a parameter `now`.
- `path.join` is taken to join with "/" (POSIX).
- Writing the photo files, deleting the archive and extracting it are I/O and not modelled; the archive is its list of entries.
- Concurrency (two registrations reading the same last id, two starts at once) is not modelled; requests run one at a time and the unique indexes are invariants.
- StartExamSpec: the category is a parameter. As written `startExam` reads `req.user.category`, but `req.user` is the decoded token, which carries only `id` and `role` (controllers/userController.js:192, middleware/auth.js:19), so the category is `undefined`; what the question query then returns depends on Mongoose's handling of an undefined filter value and is not modelled.
- `submitExam`: answer keys that are not ObjectIds make the query throw; answer ids are natural numbers here, so that error is not modelled. A missing `answers` object is modelled as the error it causes.
- The proctoring fields of exam records (`warningCount`, `violationLogs`) and the `Terminated` transition: nothing in the core sets them.
- `addQuestion`: an `options` value that is not an array, and `marks` given as text, are not modelled.
- The exam routes import `{protect, admin}` from a module that exports a single function; the routing layer is not part of this model.
- ConsecutiveIdsDiffer: states distinctness for two registrations in sequence, not for any longer run; and it holds only below 2^53 (see NextIdNumber).
- NextIdNumber: JavaScript numbers are IEEE doubles and the model's are unbounded; from 2^53 on `lastIdNum + 1` rounds back to the same number, so the source re-issues the last id (and the unique index refuses it). The model's numbers never round, so its allocation promises hold only for suffixes below 2^53.
- SuffixNumber: `parseInt` of a suffix above 2^53 is rounded to a double in the source; here it is exact.
- IdFor: `prefix + n` prints numbers from 1e21 on in exponent form ("1e+21"); here always as digits.
- NatToDecimal: models `String(n)` for integers below 1e21 only, where JavaScript prints plain digits.
- NextAllocationIncrements: holds for numbers below 2^53 only, for the reason under NextIdNumber.
- LastRegistrationId: the source reads the newest user by `sort({createdAt: -1})`; the documents of one `insertMany` share a timestamp and MongoDB returns such ties in any order, so a registration after an import may read an earlier id of the block and re-issue an id (an E11000 500). The model always reads the last stored user.
- Score: question marks are integers here; the schema's `marks` is a Number, so fractional marks and their floating-point sums are not modelled.
- BulkUserEmail: states only the case where the row gives an email; without one the document has no email.

## Findings

| source | as written | input that shows it | evidently intended | confidence | as-written member | corrected member |
|---|---|---|---|---|---|---|
| models/User.js:32-36 | the User schema's category enum is "Class 6th to 10th", "Class 11th / 12th", "College", while the prices are keyed by "Class 11th / 12th or College" | a senior registration that paid 500 with a valid signature and photo: `User.create` fails validation, after the payment | the schema validates against `USER_CATEGORY_ENUM`, so every stored user paid its category's positive price | high, not executed | Registration.SeniorNeverRegisters | Registration.CorrectedRegistrationCharges |
| controllers/userController.js:330 | a row without a category gets "JUNIOR", the key of `USER_CATEGORIES` rather than its label | a bulk row with name, mobile and email but no category: its document never validates, so `insertMany` drops it while the import reports it as processed | the default is the junior label "Class 6th to 10th" | high, not executed | BulkImport.WrittenDefaultNeverValidates | BulkImport.LabelDefaultValidates |
| models/User.js:3-46 | the User schema declares neither `isPhotoUploaded` nor `schoolName`, which the handlers write (controllers/userController.js:151, 333, 347, 394, 470); in Mongoose's default strict mode a save drops both | a zip entry "NFLO26-1005.jpg" for a stored user: the path is saved but the photo flag is not, so the user still has no stored flag; an imported or registered user's school is never stored | both keys are declared in the schema, so a saved user keeps its school and its photo flag | high, not executed | PhotoUpload.WrittenSchemaDropsPhotoFlag | PhotoUpload.CorrectedSchemaKeepsPhotoFlag |
