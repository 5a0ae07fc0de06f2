# Skillfolio activity credentials and student CSV import, in Dafny

This project models three pieces of decision logic from the Skillfolio
student-activity system.

- **The moderation transition** (`verifyActivity`). A moderator approves or
  rejects a submitted activity.
  - The record's status, moderator, comment and verification time are
    updated first.
  - On approval, a JSON Web Token credential is signed with HS256 and a PDF
    certificate is written at a per-activity locator.
  - A second update then stores the locator and the token on the record.
  - Creating an activity (`createActivity`) and the moderator's listing
    query (`getPendingActivities`) are modelled with it.
- **The public token check** (`verifyToken`). A missing token is refused
  outright. Otherwise the token must verify under the configured key with
  HS256 or RS256, and every failure gives the same answer. Because both
  controllers fall back to the key `'dev-secret'`, the model proves that
  what the approval issues, the check accepts until it expires 365 days
  later.
- **The administrator's CSV import page**, which does these things:
  - validates headers case-insensitively;
  - normalises each row into its five required fields plus extra columns;
  - classifies each row as pending or invalid, with its messages;
  - keeps a log capped at 500 lines;
  - selects rows for Start Import and Retry Failed;
  - applies per-row status updates keyed by `__index`;
  - clamps the concurrency setting and computes the worker count;
  - keeps the counts line.

Layout, one module per file:

| file | module | what it holds |
|---|---|---|
| js_values.dfy | `JsValues` | `undefined`/`null`-aware property reads, truthiness, `trim`, ASCII `toLowerCase` |
| jwt.dfy | `Jwt` | claim set, symbolic `sign`/`verify` in the `jsonwebtoken` check order, the shared key fallback |
| activity_model.dfy | `ActivityModel` | the Activity record, `new Activity(...).save()`, the store class with `findByIdAndUpdate` |
| activities_controller.dfy | `ActivitiesController` | `Transition` (the whole effect of one `verifyActivity` request), the `VerifyActivity` method proved against it, the listing query, `createActivity` |
| verify_controller.dfy | `VerifyController` | `verifyToken` |
| credential_round_trip.dfy | `CredentialRoundTrip` | issuance followed by verification |
| import_rows.dfy | `ImportRows` | the pure row logic of the import page |
| admin_import.dfy | `AdminImport` | the import page's state as a class whose methods are its handlers |

Cryptography is symbolic. A signature is the term `Mac(alg, key, header,
payload)`: only a holder of `key` can produce it, and verification
recomputes and compares it. Clocks, the PDF sink's outcome and every
upload's outcome are parameters.

## Model

| member | source | states |
|---|---|---|
| JsValues.Trim | frontend/src/pages/AdminImport.jsx:59 | `trim` leaves no whitespace at either end, is empty exactly for all-blank text, and leaves trimmed text unchanged; `TrimIsSlice` states that only the blank ends are removed |
| JsValues.TrimIsSlice | frontend/src/pages/AdminImport.jsx:58-59 | the trimmed text is the input with a blank prefix and a blank suffix cut off, and nothing else removed |
| JsValues.Lower | frontend/src/pages/AdminImport.jsx:50 | `toLowerCase` leaves no upper-case ASCII letter, turns each into its own lower-case letter (code point + 32) and keeps every other character |
| JsValues.StrOr | backend/src/controllers/activitiesController.js:95 | the fallback `x or fallback` is `x` when it is a non-empty string, else the fallback |
| JsValues.NumOrNull | backend/src/controllers/activitiesController.js:91 | `hours`, falling back to null, is null exactly for a missing, null or zero value, and the value itself otherwise |
| JsValues.StrOrNull | backend/src/controllers/activitiesController.js:92-93 | a string falling back to null is null exactly for a missing, null or empty string, and the string itself otherwise |
| JsValues.ObjOrNull | backend/src/controllers/activitiesController.js:90 | `date`, falling back to null, is null exactly when no date is stored, and the stored date otherwise |
| Jwt.SecretOf | backend/src/controllers/activitiesController.js:102 | the key is `JWT_SECRET` when set and non-empty, else `'dev-secret'`; never empty |
| Jwt.Sign | backend/src/controllers/activitiesController.js:103 | signing fails iff the key is empty, the algorithm is unknown or the payload already has `exp`; otherwise header `{alg, typ: JWT}`, `iat` set to the signing time when the payload has none, `exp = iat + expiresIn`, and a signature under the key |
| Jwt.Verify | backend/src/controllers/verifyController.js:10 | verification succeeds iff the text is a token, the key is non-empty, the algorithm is allowed, the signature is the key's MAC and the token is unexpired; it then returns the payload unchanged |
| Jwt.SignThenVerify | backend/src/controllers/verifyController.js:9-11 | a token signed with a key verifies with that key exactly until its `exp`, yielding the signed claims |
| Jwt.OtherKeyRejected | backend/src/controllers/verifyController.js:10 | a token is never accepted under a key other than its signer's |
| ActivityModel.NewActivity | backend/src/models/Activity.js:3-12 | saving fails iff `student_id` is missing, null or empty; `status` is `'pending'` only when the body leaves it undefined and is stored verbatim otherwise; both timestamps are the save time |
| ActivityModel.ApplySet | backend/src/controllers/activitiesController.js:54-58 | a `$set` overwrites exactly the present fields, bumps `updatedAt` and leaves id, student and `createdAt` alone |
| ActivityModel.ActivityStore.constructor | backend/src/models/Activity.js:14 | the collection starts empty |
| ActivityModel.ActivityStore.Docs | backend/src/controllers/activitiesController.js:23 | a query sees every stored record exactly as stored |
| ActivityModel.ActivityStore.Create | backend/src/controllers/activitiesController.js:11-12 | a saved activity is added under its id; a refused one changes nothing |
| ActivityModel.ActivityStore.FindByIdAndUpdate | backend/src/controllers/activitiesController.js:54-58 | a known id gets the patched record stored and returned; an unknown id returns null and changes nothing |
| ActivitiesController.IssuerOf | backend/src/controllers/activitiesController.js:79 | `iss` is `ISS` when set and non-empty, else 'http://localhost:5000'; never empty |
| ActivitiesController.BuildClaims | backend/src/controllers/activitiesController.js:78-99 | the payload has no `exp`; `sub` and `jti` name the student and the activity; `iss` is the configured issuer, `iat` the write time in seconds and `verifiedAt` the write time; it carries the two credential types, the student id and name and the title; `date`, `hours`, `description` and `evidenceUrl` are the stored values or null when falsy; `verified_by` is the request's moderator, else the stored one, else 'Unknown' |
| ActivitiesController.StatusPatch | backend/src/controllers/activitiesController.js:44-51 | the first update sets status 'approved' exactly for the action 'approved' (else 'rejected'), `verifiedAt` to now, the moderator iff it is truthy, the comment iff it is defined, and neither `pdfUrl` nor `jwt` |
| ActivitiesController.CredentialPatch | backend/src/controllers/activitiesController.js:142-146 | the second update sets exactly `pdfUrl` and `jwt` to the locator and the token |
| ActivitiesController.RenderCertificate | backend/src/controllers/activitiesController.js:118-128 | each of the student, id, activity, verifier and comment lines is the stored (or request) value, else 'N/A'/'None'; hours print the stored hours and a date its locale form exactly when stored; the verification date is the write time |
| ActivitiesController.Transition | backend/src/controllers/activitiesController.js:31-178 | 400 iff the action is neither 'approved' nor 'rejected'; 404 iff a valid action names an unknown id; approval succeeds iff the PDF write finishes and rejection whenever the id is known; no record is added or removed and every other record is unchanged; a non-200 answer writes no file, and only the record's own certificate can be added |
| ActivitiesController.PdfUrl | backend/src/controllers/activitiesController.js:139 | the locator is `/public/pdfs/` then the id then `.pdf` |
| ActivitiesController.PdfDirectory.constructor | backend/src/controllers/activitiesController.js:107-108 | the PDF directory starts empty |
| ActivitiesController.PdfDirectory.Write | backend/src/controllers/activitiesController.js:113-137 | the certificate lands at its file exactly when the stream finishes |
| ActivitiesController.VerifyActivity | backend/src/controllers/activitiesController.js:31-178 | validation, the first update, signing, the PDF write and the second update, performed one write at a time, leave the response, store and directory that `Transition` gives |
| ActivitiesController.CreateActivity | backend/src/controllers/activitiesController.js:8-18 | 201 with the saved record, now stored under its id; or 400 with the validation message and the store unchanged |
| ActivitiesController.StatusQuery | backend/src/controllers/activitiesController.js:22 | the requested status when given and non-empty, else `'pending'` |
| ActivitiesController.WithStatus | backend/src/controllers/activitiesController.js:23 | the filter keeps exactly the documents with the requested status |
| ActivitiesController.InsertNewest | backend/src/controllers/activitiesController.js:23 | inserting into a newest-first list keeps it newest-first and adds exactly one document |
| ActivitiesController.ConsNewestFirst | backend/src/controllers/activitiesController.js:23 | a document no older than the head can go in front |
| ActivitiesController.SortNewestFirst | backend/src/controllers/activitiesController.js:23 | the sort is newest-first and a permutation of its input |
| ActivitiesController.NewestFirstPrefix | backend/src/controllers/activitiesController.js:23 | a prefix of a newest-first list is newest-first |
| ActivitiesController.PrefixKeepsNewest | backend/src/controllers/activitiesController.js:23 | what the limit drops is no newer than anything it keeps |
| ActivitiesController.PrefixOfMatches | backend/src/controllers/activitiesController.js:23 | the kept prefix holds only stored documents with the requested status, and none newer is dropped |
| ActivitiesController.ListActivities | backend/src/controllers/activitiesController.js:20-24 | the listing holds min(200, matches) documents, all stored with the requested status, newest first, and none left out is newer than one kept |
| ActivitiesController.GetPendingActivities | backend/src/controllers/activitiesController.js:20-29 | the response is the listing of the store's records: each as stored, at most 200, newest first |
| ActivitiesController.InvalidActionTouchesNothing | backend/src/controllers/activitiesController.js:37-39 | an action other than approved/rejected is 400 and touches neither the store nor the directory |
| ActivitiesController.UnknownIdIsNotFound | backend/src/controllers/activitiesController.js:60-63 | an unknown id is 404 with no signing, no PDF and no store change |
| ActivitiesController.StatusPatchEffect | backend/src/controllers/activitiesController.js:44-51 | the first update sets status and `verifiedAt`; it sets the moderator only if truthy and the comment unless undefined; nothing else changes but `updatedAt` |
| ActivitiesController.RejectionOnlyUpdatesStatus | backend/src/controllers/activitiesController.js:164-169 | a rejection is 200 with the once-updated record, no token, no PDF and no second update |
| ActivitiesController.ApprovalSigningSucceeds | backend/src/controllers/activitiesController.js:101-103 | signing the approval payload cannot fail |
| ActivitiesController.ApprovalIssuesCredential | backend/src/controllers/activitiesController.js:76-161 | an approval answers 200 with the locator and an HS256 token (`sub`, `jti`, `vc.type`, title, `student_id`, 365-day `exp`); the second update stores exactly `pdfUrl` and `jwt`, and the certificate sits at the locator |
| ActivitiesController.FailedIssuanceKeepsApproval | backend/src/controllers/activitiesController.js:171-177 | a failed PDF write after the first update is 500, and the record stays approved without a credential |
| ActivitiesController.ReapprovalResigns | backend/src/controllers/activitiesController.js:54-58 | the current status is never checked: re-approval signs a fresh token, overwrites the stored one and rewrites the same single certificate |
| ActivitiesController.PdfUrlInjective | backend/src/controllers/activitiesController.js:110 | the locator depends on the id alone, and different ids get different locators |
| ActivitiesController.FallbackChains | backend/src/controllers/activitiesController.js:95-128 | `verified_by` is the request's moderator, else the stored one, else 'Unknown' (the certificate ends in 'N/A'); the certificate's comment falls back to the stored one, then 'None' |
| ActivitiesController.ZeroHoursDiverge | backend/src/controllers/activitiesController.js:91-123 | 0 hours become null in the token but print as 0 on the certificate |
| VerifyController.VerifyToken | backend/src/controllers/verifyController.js:4-16 | 200 iff the token verifies under the key with HS256/RS256, returning the payload unchanged; a falsy token gets 'No token provided'; every other failure gets 'Invalid or expired token' |
| VerifyController.OnlyAllowedAlgorithms | backend/src/controllers/verifyController.js:10 | a token naming any algorithm other than HS256 or RS256 is refused |
| VerifyController.SingleFailureReason | backend/src/controllers/verifyController.js:12-14 | all verification failures give the same 400 answer |
| VerifyController.ForeignKeyRefused | backend/src/controllers/verifyController.js:9-14 | a token signed under another key is refused |
| CredentialRoundTrip.IssuedCredentialVerifies | backend/src/controllers/verifyController.js:9-11 | the token an approval issues verifies, within 365 days, to exactly its claims |
| CredentialRoundTrip.IssuedCredentialExpires | backend/src/controllers/activitiesController.js:103 | from 365 days after issuance on, the same token is refused |
| CredentialRoundTrip.RetriedApprovalAgrees | backend/src/controllers/activitiesController.js:76-110 | two approvals of one record both yield verifying tokens for the same subject, claim id and activity, and leave one certificate |
| CredentialRoundTrip.InternshipScenario | backend/src/controllers/activitiesController.js:78-99 | a concrete activity approved by "Dr. Rao" verifies with its title and that moderator |
| ImportRows.FirstIndex | frontend/src/pages/AdminImport.jsx:66 | `find`/`includes`: the first position holding the value, or none |
| ImportRows.CanonAll | frontend/src/pages/AdminImport.jsx:50 | each header trimmed and lower-cased, position by position |
| ImportRows.EveryIncluded | frontend/src/pages/AdminImport.jsx:51 | true iff every required name occurs among the canonical headers |
| ImportRows.ValidateHeaders | frontend/src/pages/AdminImport.jsx:49-52 | true iff each of the five required names equals some header after trim and lower-casing, in any order and with any extras |
| ImportRows.Canon | frontend/src/pages/AdminImport.jsx:50 | a canonical name is trimmed, no longer than the header, and holds no upper-case ASCII letter |
| ImportRows.CanonIdempotent | frontend/src/pages/AdminImport.jsx:66 | canonicalising a canonical name changes nothing |
| ImportRows.CanonOfLowerName | frontend/src/pages/AdminImport.jsx:19 | a lower-case name is its own canonical form |
| ImportRows.CanonOfRequired | frontend/src/pages/AdminImport.jsx:19 | the required names are their own canonical form |
| ImportRows.Put | frontend/src/pages/AdminImport.jsx:60 | `obj[key] = value` replaces an existing key in place or appends a new one |
| ImportRows.CellText | frontend/src/pages/AdminImport.jsx:59 | a kept value is the trimmed cell text, and `undefined`/`null` become '' |
| ImportRows.TrimmedObject | frontend/src/pages/AdminImport.jsx:56-61 | the trimmed object has distinct trimmed keys and trimmed values; its contents are stated by `TrimmedObjectFromRaw` |
| ImportRows.Columns | frontend/src/pages/AdminImport.jsx:58-59 | column i gives the pair of its trimmed name and its kept value |
| ImportRows.PutAll | frontend/src/pages/AdminImport.jsx:57-61 | assigning the pairs in turn keeps the keys distinct |
| ImportRows.PutFacts | frontend/src/pages/AdminImport.jsx:60 | `obj[k] = v` makes `k` a key holding `v`, keeps every other key with its value and its place, and keeps the keys distinct |
| ImportRows.PutAllHasEveryKey | frontend/src/pages/AdminImport.jsx:57-61 | every key assigned is a key of the result |
| ImportRows.PutAllTakesLast | frontend/src/pages/AdminImport.jsx:57-61 | each key holds the value of the last assignment to it |
| ImportRows.TrimmedObjectIsPutAll | frontend/src/pages/AdminImport.jsx:56-61 | the first `forEach` assigns the columns' (trimmed name, kept value) pairs in column order |
| ImportRows.TrimmedObjectFromRaw | frontend/src/pages/AdminImport.jsx:56-61 | every trimmed column name is a key, and each key holds the kept value of the last column with that trimmed name |
| ImportRows.PutKeepsTrimmedDistinct | frontend/src/pages/AdminImport.jsx:57-61 | one assignment keeps keys distinct and everything trimmed |
| ImportRows.FindHeader | frontend/src/pages/AdminImport.jsx:66 | the first key whose canonical form is the header, or none |
| ImportRows.HeaderValueFound | frontend/src/pages/AdminImport.jsx:66-67 | a header reads the value of the first key naming it case-insensitively, and '' when no key does |
| ImportRows.Pick | frontend/src/pages/AdminImport.jsx:64-68 | each header maps to its matching column's value, or '' |
| ImportRows.PickKeys | frontend/src/pages/AdminImport.jsx:63-68 | the picked map has exactly the headers as keys |
| ImportRows.NormalizedOf | frontend/src/pages/AdminImport.jsx:63-68 | `normalized` has exactly the five required keys, each from its case-insensitive column |
| ImportRows.ExtrasOf | frontend/src/pages/AdminImport.jsx:70-73 | `extras` holds exactly the columns whose name is not a required header |
| ImportRows.ExtrasKeepDistinctKeys | frontend/src/pages/AdminImport.jsx:70-73 | the extras' keys are distinct |
| ImportRows.NormalizeRow | frontend/src/pages/AdminImport.jsx:54-75 | the three loops produce the trimmed object, `normalized` and `extras` |
| ImportRows.TrimKeysAndValues | frontend/src/pages/AdminImport.jsx:56-61 | the first `forEach` builds the trimmed object |
| ImportRows.PickRequired | frontend/src/pages/AdminImport.jsx:63-68 | the `for` loop builds `normalized` |
| ImportRows.PickEach | frontend/src/pages/AdminImport.jsx:64-68 | the loop over the headers builds the picked map |
| ImportRows.CollectExtras | frontend/src/pages/AdminImport.jsx:70-73 | the second `forEach` builds `extras` in column order |
| ImportRows.NormalizedValuesTrimmed | frontend/src/pages/AdminImport.jsx:56-68 | every kept value is trimmed, and a missing column reads as '' |
| ImportRows.ExtrasNeverShadowRequired | frontend/src/pages/AdminImport.jsx:72 | no extra column is named like a required field |
| ImportRows.Spread | frontend/src/pages/AdminImport.jsx:156-163 | `{...m, ...extras}` keeps untouched keys, adds every extra with its value, and invents no key |
| ImportRows.Payload | frontend/src/pages/AdminImport.jsx:156-163 | the body holds each required field that no extra renames, every extra column (with its own value when the extras' keys are distinct), and no other key |
| ImportRows.PayloadCarriesRow | frontend/src/pages/AdminImport.jsx:156-163 | the posted body carries the five fields unchanged and every extra column, and nothing else |
| ImportRows.Missing | frontend/src/pages/AdminImport.jsx:104 | a field is listed iff it is required and its value is empty after trimming; the order is stated by `MissingKeepsOrder` |
| ImportRows.MissingKeepsOrder | frontend/src/pages/AdminImport.jsx:104 | the missing fields are a subsequence of the required headers: their order is kept |
| ImportRows.Join | frontend/src/pages/AdminImport.jsx:108 | the joined text is '' for no parts and starts with the first part, followed by the separator when more parts come |
| ImportRows.JoinSnoc | frontend/src/pages/AdminImport.jsx:108 | joining one more part appends the separator and that part |
| ImportRows.MatchesEmail | frontend/src/pages/AdminImport.jsx:105 | a matching address has at least five characters and contains '@' and '.' |
| ImportRows.MatchesEmailIffShape | frontend/src/pages/AdminImport.jsx:105 | the position test is the regex `^\S+@\S+\.\S+$` |
| ImportRows.Verdict | frontend/src/pages/AdminImport.jsx:104-109 | invalid iff some required field is empty, and then its messages are exactly 'Missing: ' with the missing fields joined by ', ', followed by 'Invalid email' when the email is non-empty and fails the pattern; a complete row is pending, with 'Invalid email' exactly when its email fails the pattern; on any row 'Invalid email' appears iff the email is non-empty and fails the pattern; at most two messages |
| ImportRows.ClassifyRow | frontend/src/pages/AdminImport.jsx:101-118 | a parsed row carries its index, normalised fields, extras and verdict, with no server error |
| ImportRows.ParseRows | frontend/src/pages/AdminImport.jsx:101-119 | row i is classified with `__index` i, so indices are unique |
| ImportRows.SelectForImport | frontend/src/pages/AdminImport.jsx:198 | Start Import takes exactly the pending and error rows |
| ImportRows.SelectForRetry | frontend/src/pages/AdminImport.jsx:218 | Retry Failed takes exactly the error rows |
| ImportRows.SelectionKeepsIndicesUnique | frontend/src/pages/AdminImport.jsx:198 | both selections keep `__index` unique |
| ImportRows.FirstWithIndex | frontend/src/pages/AdminImport.jsx:150 | the first row carrying the index, or none |
| ImportRows.UpdateRow | frontend/src/pages/AdminImport.jsx:148-153 | an update changes only the first row with the index, and no index |
| ImportRows.MarkOnlyItsRow | frontend/src/pages/AdminImport.jsx:169-174 | with unique indices, an update reaches exactly its own row |
| ImportRows.FailureMessage | frontend/src/pages/AdminImport.jsx:177 | the response's error, else the exception's message, else 'Network/Error'; never empty |
| ImportRows.Settled | frontend/src/pages/AdminImport.jsx:169-184 | success sets 'success' and clears `serverError`; failure sets 'error', the server error, and appends the message to `errors` |
| ImportRows.UploadStep | frontend/src/pages/AdminImport.jsx:148-184 | one worker iteration keeps the length and every index, replaces the first row carrying the batch row's index by that row settled by the outcome, and changes nothing else |
| ImportRows.UploadAll | frontend/src/pages/AdminImport.jsx:139-192 | uploading a batch keeps the number of rows; the settled rows themselves are stated by `UploadAllSettlesEachRow` |
| ImportRows.UploadAllKeepsIndices | frontend/src/pages/AdminImport.jsx:148-184 | uploads change no row's index |
| ImportRows.UploadAllSettlesEachRow | frontend/src/pages/AdminImport.jsx:139-192 | after a batch, each batch row is settled by its own outcome and every other row is unchanged |
| ImportRows.AfterBatchErrorIffRejected | frontend/src/pages/AdminImport.jsx:176-184 | a row ends a batch in error iff its own upload was rejected |
| ImportRows.ImportLeavesErrorsExactlyAtRejections | frontend/src/pages/AdminImport.jsx:196-218 | after Start Import, the rows in error, which Retry Failed takes, are exactly those whose upload was rejected |
| ImportRows.ClampConcurrency | frontend/src/pages/AdminImport.jsx:273 | the setting is within [1, 20]: an empty input gives 1 and values outside are clamped |
| ImportRows.WorkerSpan | frontend/src/pages/AdminImport.jsx:191 | `max(1, min(concurrency, total))` is at least 1 and at most the batch size; it is the setting when that lies between 1 and the batch size, the batch size when the setting is larger, and 1 when the setting or the batch is at most 1 |
| ImportRows.WorkerCountAsWritten | frontend/src/pages/AdminImport.jsx:191 | `new Array` fails iff the setting is fractional and strictly between 1 and the batch size |
| ImportRows.WorkerCount | frontend/src/pages/AdminImport.jsx:191 | the corrected worker count is a whole number in [1, batch size], agreeing with the source wherever that succeeds |
| ImportRows.FractionalConcurrencyAborts | frontend/src/pages/AdminImport.jsx:191 | the input 2.5 passes the clamp and aborts an import of three rows |
| ImportRows.CountRows | frontend/src/pages/AdminImport.jsx:244-248 | the total is the number of rows and the sum of the five tallies; each tally is stated by `CountRowsTallies` |
| ImportRows.TallyStep | frontend/src/pages/AdminImport.jsx:246 | one more row adds one to the tally of its own status and nothing to the others |
| ImportRows.CountRowsTallies | frontend/src/pages/AdminImport.jsx:244-248 | each status's tally is the number of rows in that status |
| ImportRows.SelectForImportSnoc | frontend/src/pages/AdminImport.jsx:198 | a row added at the end joins Start Import's selection iff pending or in error |
| ImportRows.SelectForRetrySnoc | frontend/src/pages/AdminImport.jsx:218 | a row added at the end joins Retry Failed's selection iff in error |
| ImportRows.CountsMatchSelections | frontend/src/pages/AdminImport.jsx:279-291 | pending plus error counts are the rows Start Import takes; error counts are the rows Retry Failed takes |
| AdminImport.LastN | frontend/src/pages/AdminImport.jsx:37 | `slice(-500)` keeps min(500, length) entries |
| AdminImport.LastNIsSuffix | frontend/src/pages/AdminImport.jsx:37 | what is kept is the tail of the list, in order |
| AdminImport.CapAfterEachAppend | frontend/src/pages/AdminImport.jsx:34-38 | capping after every append keeps the last 500 lines of the whole history |
| AdminImport.StudentLabel | frontend/src/pages/AdminImport.jsx:175 | the row's `student_id` when present and non-empty, otherwise '(no id)'; never empty |
| AdminImport.UploadLog | frontend/src/pages/AdminImport.jsx:175-185 | one success or failure line per batch row, in batch order |
| AdminImport.ImportSession.constructor | frontend/src/pages/AdminImport.jsx:23-27 | no rows, an empty log, concurrency 5, not importing |
| AdminImport.ImportSession.AppendLog | frontend/src/pages/AdminImport.jsx:34-38 | the line goes at the end and the log keeps the last 500 lines of the history |
| AdminImport.ImportSession.Reset | frontend/src/pages/AdminImport.jsx:41-47 | rows and log are cleared and importing is off |
| AdminImport.ImportSession.SetConcurrency | frontend/src/pages/AdminImport.jsx:273 | the setting becomes the clamped input and nothing else changes |
| AdminImport.ImportSession.HandleParse | frontend/src/pages/AdminImport.jsx:81-130 | no file changes nothing; otherwise rows and log are cleared and end as the classified rows with 'Parsed n rows.', or no rows with the header or parse-error line |
| AdminImport.ImportSession.Complete | frontend/src/pages/AdminImport.jsx:91-124 | rows are classified only when the headers validate; one log line says which |
| AdminImport.ImportSession.UploadRows | frontend/src/pages/AdminImport.jsx:133-194 | the rows become the batch's settled rows, one log line per row in order, with the corrected worker count |
| AdminImport.ImportSession.UploadOne | frontend/src/pages/AdminImport.jsx:139-186 | one worker iteration: mark uploading, settle by the outcome, log one line |
| AdminImport.ImportSession.StartImport | frontend/src/pages/AdminImport.jsx:196-215 | only a non-empty, confirmed selection of pending and error rows starts; it is uploaded between 'Import started' and 'Import finished', and importing ends off |
| AdminImport.ImportSession.RetryFailed | frontend/src/pages/AdminImport.jsx:217-230 | only a non-empty selection of error rows starts; it is uploaded between 'Retrying' and 'Retry finished' |

## Left out

- Cryptography: HMAC and RSA are symbolic. An RS256 key pair is not told apart from a shared secret, so a token is verified under the configured key whatever its algorithm.
- Signing with the algorithm "none" and `jsonwebtoken`'s other options (`nbf`, audience, issuer checks) are not modelled, since the controllers do not use them.
- PDF rendering: the certificate is its list of lines with the fallbacks applied. The file may be left half written when the stream fails, and that is not modelled.
- Dates: `new Date()`, `Date.now()`, `toISOString`, `toLocaleDateString`, `toLocaleString` and `toLocaleTimeString` are opaque times or are omitted. Log lines carry no time prefix.
- Mongoose:
  - cast errors for malformed ids and malformed `date`/`hours` (a 500 or a 400) are not modelled;
  - schema strict mode, which would drop the undeclared fields `student_name`, `moderator`, `comment`, `verifiedAt`, `pdfUrl` and `jwt`, is not modelled, so the model stores them as the controller intends. In the source the token's `name` is therefore absent and the certificate reads "Student: N/A (...)";
  - `hours` is a whole number in the model, while the schema's `Number` also admits fractions;
  - `runValidators` and `.lean()` have no separate effect.
- ActivitiesController.VerifyActivity: the second update finding no record (a concurrent delete) is unreachable in this sequential model. The source then throws a TypeError and answers 500.
- ActivitiesController.StatusQuery: `req.query.status` is a string or absent. Express can also hand over an array or an operator object (`?status[$ne]=x`), which would change the query; that is not modelled.
- ActivitiesController.ListActivities: the order among documents with equal `createdAt` is the model's insertion sort, not the database's.
- The console logging of both controllers is not modelled.
- backend/src/server.js does not mount the verify controller. `VerifyController.VerifyToken` models it as if it were reachable.
- backend/src/server.js:7-18 serves no static files under `/public`, so the locator `PdfUrl` returns cannot be fetched from the server. The model treats the locator as the key of the PDF directory.
- JsValues.Lower: lower-cases ASCII letters only; other characters are kept as they are.
- Papa.parse: tokenising, `transformHeader`, `skipEmptyLines` and `__parsed_extra` are not modelled. A row is the list of (key, value) pairs it hands over, in key order. JavaScript puts integer-like keys first in `Object.keys`; that reordering is not modelled.
- Network: each `api.post('/students')` outcome is a parameter, one per batch row.
- AdminImport.ImportSession.UploadRows:
  - the workers are modelled as one sequential pass in batch order, so the interleaving of concurrent workers and the order of their log lines are not modelled; `UploadAllSettlesEachRow` shows that the final rows do not depend on that order;
  - the `results` array is not built, since both callers discard it;
  - the 'uploading' status is visible only between the two updates of one row.
- AdminImport.ImportSession.UploadRows, AdminImport.ImportSession.StartImport and AdminImport.ImportSession.RetryFailed use the corrected worker count (see Findings), so the 'unrecoverable error' and 'Retry error' branches do not occur.
- `isMounted`, `alert` and `window.confirm` are not modelled as state. The confirmation is the `confirmed` parameter, and the component is taken to stay mounted.
- The `parsing` and `file` state, `handleFileChange`, `downloadTemplate` and the JSX rendering are not modelled.

## Findings

| source | as written | input that shows it | evidently intended | confidence | as-written member | corrected member |
|---|---|---|---|---|---|---|
| frontend/src/pages/AdminImport.jsx:191 | `new Array(Math.max(1, Math.min(concurrency, total)))` accepts the clamped setting unrounded; the clamp at line 273 lets a fractional value through, and `new Array(2.5)` throws a RangeError, so the import aborts before any row is uploaded | concurrency input "2.5", then Start Import with 3 pending rows | a whole number of workers between 1 and the batch size | not executed | ImportRows.FractionalConcurrencyAborts | ImportRows.WorkerCount |
